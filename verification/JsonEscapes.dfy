/** What the escapes of a JSON string literal mean, and that the unescaping loop undoes them. */
module JsonEscapes {
  import opened CStrings
  import opened Wrappers
  import opened JsonTokens
  import opened JsonText
  import opened JsonGrammar
  import opened JsonRoundTrip

  /**
   One written unit: a plain character, one of the five letters for control characters, any other
   character behind a backslash, \uXXXX with the case of each digit, or a backslash that escapes nothing.
   */
  datatype Unit = Plain(c: char) | Short(c: char) | Same(c: char) | Hex(code: nat, upper: seq<bool>) | Dropped

  /** The letters of section 7 of RFC 8259 for backspace, tab, line feed, form feed and carriage return. */
  function ShortLetter(c: char): (r: Option<char>)
    ensures r.Some? ==> r.value in "btnfr"
  {
    match c as int
    case 0x08 => Some('b')
    case 0x09 => Some('t')
    case 0x0A => Some('n')
    case 0x0C => Some('f')
    case 0x0D => Some('r')
    case _ => None
  }

  function HexDigit(v: nat, upper: bool): char
    requires v < 16
  {
    if v < 10 then (0x30 + v) as char else if upper then (0x41 + (v - 10)) as char else (0x61 + (v - 10)) as char
  }

  /** Four digits, most significant first. */
  function HexDigits(code: nat, upper: seq<bool>): (s: string)
    requires code < 0x1_0000 && |upper| == 4
    ensures |s| == 4
  {
    [HexDigit(code / 0x1000, upper[0]), HexDigit(code / 0x100 % 0x10, upper[1]),
     HexDigit(code / 0x10 % 0x10, upper[2]), HexDigit(code % 0x10, upper[3])]
  }

  predicate IsHexDigit(c: char) {
    0x30 <= c as int <= 0x39 || 0x41 <= c as int <= 0x46 || 0x61 <= c as int <= 0x66
  }

  predicate FourHexDigits(s: string) {
    |s| >= 4 && IsHexDigit(s[0]) && IsHexDigit(s[1]) && IsHexDigit(s[2]) && IsHexDigit(s[3])
  }

  /** A backslash escapes nothing in front of a u without four digits. */
  predicate ValidUnit(u: Unit, rest: string) {
    match u
    case Plain(c) => c != '"' && c != '\\' && c != '\0'
    case Short(c) => ShortLetter(c).Some?
    case Same(c) => c !in "btnfru" && c != '\0'
    case Hex(code, upper) => code < 0x1_0000 && |upper| == 4
    case Dropped => |rest| > 0 && rest[0] == 'u' && !FourHexDigits(rest[1..])
  }

  predicate ValidUnits(us: seq<Unit>) {
    |us| == 0 || (ValidUnit(us[0], Written(us[1..])) && ValidUnits(us[1..]))
  }

  function Written(us: seq<Unit>): string {
    if |us| == 0 then "" else WrittenUnit(us[0]) + Written(us[1..])
  }

  function WrittenUnit(u: Unit): (s: string)
    ensures |s| > 0
  {
    match u
    case Plain(c) => [c]
    case Short(c) => ['\\', if ShortLetter(c).Some? then ShortLetter(c).value else c]
    case Same(c) => ['\\', c]
    case Hex(code, upper) => ['\\', 'u'] + if code < 0x1_0000 && |upper| == 4 then HexDigits(code, upper) else ""
    case Dropped => ['\\']
  }

  function Denoted(us: seq<Unit>): string {
    if |us| == 0 then "" else DenotedUnit(us[0]) + Denoted(us[1..])
  }

  /** \uXXXX stands for the UTF-8 form of its number. */
  function DenotedUnit(u: Unit): string {
    match u
    case Plain(c) => [c]
    case Short(c) => [c]
    case Same(c) => [c]
    case Hex(code, _) => if code < 0x1_0000 then Utf8(code) else ""
    case Dropped => ""
  }

  // ----- hex digits -----

  lemma HexIff(c: char)
    ensures IsHex(c) <==> IsHexDigit(c)
  {
  }

  lemma HexFourIff(s: string)
    requires |s| >= 4
    ensures IsHexFour(s[..4]) <==> FourHexDigits(s)
  {
    HexIff(s[0]);
    HexIff(s[1]);
    HexIff(s[2]);
    HexIff(s[3]);
  }

  lemma HexDigitValue(v: nat, upper: bool)
    requires v < 16
    ensures IsHex(HexDigit(v, upper)) && HexValue(HexDigit(v, upper)) == v
  {
  }

  lemma ValueHexDigit(c: char) returns (upper: bool)
    requires IsHex(c)
    ensures HexDigit(HexValue(c), upper) == c
  {
    upper := 'A' <= c <= 'F';
  }

  lemma HexSum(code: nat)
    ensures code == 0x1000 * (code / 0x1000) + 0x100 * (code / 0x100 % 0x10) + 0x10 * (code / 0x10 % 0x10) + code % 0x10
  {
    assert code / 0x100 == code / 0x10 / 0x10;
    assert code / 0x1000 == code / 0x100 / 0x10;
  }

  lemma HexPlaces(a: nat, b: nat, c: nat, d: nat)
    requires a < 16 && b < 16 && c < 16 && d < 16
    ensures var code := 0x1000 * a + 0x100 * b + 0x10 * c + d;
      code / 0x1000 == a && code / 0x100 % 0x10 == b && code / 0x10 % 0x10 == c && code % 0x10 == d
  {
    var code := 0x1000 * a + 0x100 * b + 0x10 * c + d;
    assert code / 0x10 == 0x100 * a + 0x10 * b + c;
    assert code / 0x100 == 0x10 * a + b;
  }

  /** Four digits read back, whatever the case of each. */
  lemma HexFourInverts(code: nat, upper: seq<bool>)
    requires code < 0x1_0000 && |upper| == 4
    ensures IsHexFour(HexDigits(code, upper)) && HexFour(HexDigits(code, upper)) == code
  {
    hide IsHex, HexDigit, HexValue;
    HexSum(code);
    HexDigitValue(code / 0x1000, upper[0]);
    HexDigitValue(code / 0x100 % 0x10, upper[1]);
    HexDigitValue(code / 0x10 % 0x10, upper[2]);
    HexDigitValue(code % 0x10, upper[3]);
  }

  lemma EveryFourDigits(s: string) returns (upper: seq<bool>)
    requires IsHexFour(s)
    ensures |upper| == 4 && HexDigits(HexFour(s), upper) == s
  {
    hide IsHex, HexDigit, HexValue;
    var a := ValueHexDigit(s[0]);
    var b := ValueHexDigit(s[1]);
    var c := ValueHexDigit(s[2]);
    var d := ValueHexDigit(s[3]);
    upper := [a, b, c, d];
    HexPlaces(HexValue(s[0]), HexValue(s[1]), HexValue(s[2]), HexValue(s[3]));
  }

  // ----- unescaping -----

  lemma ShortIsUndone(c: char)
    requires ShortLetter(c).Some?
    ensures SimpleEscape(ShortLetter(c).value) == c
  {
  }

  lemma SameIsKept(c: char)
    requires c !in "btnfru"
    ensures SimpleEscape(c) == c
  {
  }

  lemma UnescapeUnit(u: Unit, rest: string)
    requires ValidUnit(u, rest)
    ensures Unescape(WrittenUnit(u) + rest) == DenotedUnit(u) + Unescape(rest)
  {
    var w := WrittenUnit(u);
    var s := w + rest;
    assert s[|w|..] == rest;
    assert UnitLength(s) == |w| && UnitMeaning(s) == DenotedUnit(u) by {
      hide Unescape, Utf8, HexFour, HexDigits, ShortLetter, SimpleEscape, FourHexDigits, IsHexFour;
      match u
      case Plain(_) =>
      case Short(c) => ShortIsUndone(c);
      case Same(c) => SameIsKept(c);
      case Hex(code, upper) =>
        assert s[2..6] == HexDigits(code, upper);
        HexFourInverts(code, upper);
      case Dropped =>
        if |s| > 5 {
          HexFourIff(rest[1..]);
          assert s[2..6] == rest[1..][..4];
        }
    }
  }

  lemma UnescapeEmpty()
    ensures Unescape("") == ""
  {
  }

  /** The loop undoes every escape, whichever way each character was written. */
  lemma {:induction false} UnescapeInvertsWriting(us: seq<Unit>)
    requires ValidUnits(us)
    ensures Unescape(Written(us)) == Denoted(us)
  {
    hide Unescape, WrittenUnit, DenotedUnit, ValidUnit;
    if |us| > 0 {
      UnescapeInvertsWriting(us[1..]);
      UnescapeUnit(us[0], Written(us[1..]));
    } else {
      UnescapeEmpty();
    }
  }

  // ----- escaping -----

  /** The escape that section 7 of RFC 8259 gives each character, where it must be escaped. */
  function EscapeUnit(c: char): Unit {
    if c == '"' || c == '\\' then Same(c)
    else if ShortLetter(c).Some? then Short(c)
    else if c as int < 0x20 then Hex(c as nat, [false, false, false, false])
    else Plain(c)
  }

  function EscapeUnits(s: string): seq<Unit> {
    if |s| == 0 then [] else [EscapeUnit(s[0])] + EscapeUnits(s[1..])
  }

  function EscapeJson(s: string): string {
    Written(EscapeUnits(s))
  }

  lemma {:induction false} EscapeUnitsAreValid(s: string)
    ensures ValidUnits(EscapeUnits(s)) && Denoted(EscapeUnits(s)) == s
  {
    hide ValidUnit, WrittenUnit, DenotedUnit, EscapeUnit;
    if |s| > 0 {
      EscapeUnitsAreValid(s[1..]);
      EscapeUnitIsValid(s[0], EscapeJson(s[1..]));
    }
  }

  lemma EscapeUnitIsValid(c: char, rest: string)
    ensures ValidUnit(EscapeUnit(c), rest) && DenotedUnit(EscapeUnit(c)) == [c]
  {
  }

  /** Escaping any text and unescaping it again is the identity. */
  lemma UnescapeInvertsEscape(s: string)
    ensures IsLiteral(EscapeJson(s)) && Unescape(EscapeJson(s)) == s
  {
    hide Unescape, Written, Denoted, ValidUnits, IsLiteral;
    EscapeUnitsAreValid(s);
    UnescapeInvertsWriting(EscapeUnits(s));
    WrittenIsLiteral(EscapeUnits(s));
  }

  // ----- literals -----

  lemma {:induction false} WrittenIsLiteral(us: seq<Unit>)
    requires ValidUnits(us)
    ensures IsLiteral(Written(us))
  {
    hide IsLiteral, WrittenUnit, ValidUnit;
    if |us| == 0 {
      EmptyIsLiteral();
    } else {
      WrittenIsLiteral(us[1..]);
      UnitThenLiteral(us[0], Written(us[1..]));
    }
  }

  lemma EmptyIsLiteral()
    ensures IsLiteral("")
  {
  }

  lemma UnitThenLiteral(u: Unit, rest: string)
    requires ValidUnit(u, rest) && IsLiteral(rest)
    ensures IsLiteral(WrittenUnit(u) + rest)
  {
    hide IsLiteral, IsHex, FourHexDigits, HexDigits;
    match u
    case Plain(c) => PlainThenLiteral(c, rest);
    case Short(c) => EscapeThenLiteral(ShortLetter(c).value, rest);
    case Same(c) => EscapeThenLiteral(c, rest);
    case Hex(code, upper) =>
      HexFourInverts(code, upper);
      HexPrefix(HexDigits(code, upper), rest);
      EscapeThenLiteral('u', HexDigits(code, upper) + rest);
      assert WrittenUnit(u) + rest == ['\\', 'u'] + (HexDigits(code, upper) + rest);
    case Dropped =>
      BehindPlain(rest);
      EscapeThenLiteral('u', rest[1..]);
      assert ['\\'] + rest == ['\\', 'u'] + rest[1..];
  }

  lemma PlainThenLiteral(c: char, rest: string)
    requires c != '"' && c != '\\' && c != '\0' && IsLiteral(rest)
    ensures IsLiteral([c] + rest)
  {
    assert ([c] + rest)[1..] == rest;
  }

  lemma BehindPlain(s: string)
    requires IsLiteral(s) && |s| > 0 && s[0] == 'u'
    ensures IsLiteral(s[1..])
  {
  }

  lemma EscapeThenLiteral(e: char, rest: string)
    requires e != '\0' && IsLiteral(rest)
    ensures IsLiteral(['\\', e] + rest)
  {
    assert (['\\', e] + rest)[2..] == rest;
  }

  lemma HexPrefix(d: string, rest: string)
    requires IsHexFour(d) && IsLiteral(rest)
    ensures IsLiteral(d + rest)
  {
    hide IsLiteral, IsHex;
    forall i | 0 <= i < |d| ensures IsHex(d[i]) {
    }
    PlainPrefix(d, rest);
  }

  lemma {:induction false} PlainPrefix(d: string, rest: string)
    requires IsLiteral(rest) && forall i :: 0 <= i < |d| ==> IsHex(d[i])
    ensures IsLiteral(d + rest)
  {
    if |d| == 0 {
      assert d + rest == rest;
    } else {
      PlainPrefix(d[1..], rest);
      assert (d + rest)[1..] == d[1..] + rest;
    }
  }

  lemma {:induction false} LiteralBehind(d: string, rest: string)
    requires IsLiteral(d + rest) && forall i :: 0 <= i < |d| ==> IsHex(d[i])
    ensures IsLiteral(rest)
  {
    if |d| == 0 {
      assert d + rest == rest;
    } else {
      assert (d + rest)[1..] == d[1..] + rest;
      LiteralBehind(d[1..], rest);
    }
  }

  /** The character for which a letter stands behind a backslash. */
  lemma LetterMeaning(e: char) returns (c: char)
    requires e in "btnfr"
    ensures ShortLetter(c) == Some(e)
  {
    c := if e == 'b' then 8 as char else if e == 't' then 9 as char else if e == 'n' then 10 as char
      else if e == 'f' then 12 as char else 13 as char;
  }

  /** The first unit of a literal. */
  lemma FirstUnit(s: string) returns (u: Unit, rest: string)
    requires IsLiteral(s) && |s| > 0
    ensures s == WrittenUnit(u) + rest && ValidUnit(u, rest) && IsLiteral(rest)
  {
    hide HexFour, IsHex, HexDigits;
    if s[0] != '\\' {
      u, rest := Plain(s[0]), s[1..];
    } else if s[1] == 'u' {
      if |s| > 5 && IsHexFour(s[2..6]) {
        var upper := EveryFourDigits(s[2..6]);
        u, rest := Hex(HexFour(s[2..6]), upper), s[6..];
        assert s == s[..2] + s[2..6] + rest && s[2..] == s[2..6] + rest;
        LiteralBehind(s[2..6], rest);
      } else {
        u, rest := Dropped, s[1..];
        assert s[1..][1..] == s[2..];
        if |s| > 5 {
          HexFourIff(s[2..]);
          assert s[2..][..4] == s[2..6];
        }
      }
    } else {
      rest := s[2..];
      assert s == [s[0], s[1]] + rest;
      if s[1] in "btnfr" {
        var c := LetterMeaning(s[1]);
        u := Short(c);
      } else {
        u := Same(s[1]);
      }
    }
  }

  /** Every literal that the parser can meet is written so. */
  lemma {:induction false} EveryLiteralIsWritten(s: string) returns (us: seq<Unit>)
    requires IsLiteral(s)
    ensures ValidUnits(us) && Written(us) == s
    decreases |s|
  {
    hide IsLiteral, WrittenUnit, ValidUnit;
    if |s| == 0 {
      us := [];
    } else {
      var u, rest := FirstUnit(s);
      var more := EveryLiteralIsWritten(rest);
      us := [u] + more;
      assert us[1..] == more;
    }
  }

  // ----- UTF-8 -----

  predicate IsSurrogate(code: nat) {
    0xD800 <= code <= 0xDFFF
  }

  predicate Tail(c: char) {
    0x80 <= c as int <= 0xBF
  }

  /** A lead byte with its tail bytes, shortest form only, and the number that their bits make. */
  function Sequence(s: string): Option<nat> {
    if |s| == 1 && s[0] as int <= 0x7F then Some(s[0] as nat)
    else if |s| == 2 && 0xC2 <= s[0] as int <= 0xDF && Tail(s[1]) then
      Some((s[0] as int - 0xC0) * 0x40 + (s[1] as int - 0x80))
    else if |s| == 3 && 0xE0 <= s[0] as int <= 0xEF && Tail(s[1]) && Tail(s[2]) && (s[0] as int == 0xE0 ==> s[1] as int >= 0xA0) then
      Some((s[0] as int - 0xE0) * 0x1000 + (s[1] as int - 0x80) * 0x40 + (s[2] as int - 0x80))
    else None
  }

  /** The one- to three-byte forms of section 4 of RFC 3629: no surrogates. */
  function DecodeUtf8(s: string): Option<nat> {
    match Sequence(s)
    case None => None
    case Some(n) => if IsSurrogate(n) then None else Some(n)
  }

  /** \uXXXX yields the bits of its number, and well-formed UTF-8 exactly when the number is not a surrogate. */
  lemma Utf8IsStandard(code: nat)
    requires code < 0x1_0000
    ensures Sequence(Utf8(code)) == Some(code)
    ensures DecodeUtf8(Utf8(code)) == if IsSurrogate(code) then None else Some(code)
  {
    var hi, mid, lo := code / 0x1000, code / 0x40 % 0x40, code % 0x40;
    assert code / 0x40 == 0x40 * hi + mid;
    assert code == 0x40 * (code / 0x40) + lo;
  }

  /** The reader of sequences and the writer are inverse, and the surrogates are the sequences from ED A0 on. */
  lemma SequenceIff(s: string, n: nat)
    ensures Sequence(s) == Some(n) <==> n < 0x1_0000 && s == Utf8(n)
    ensures DecodeUtf8(s) == None && Sequence(s) == Some(n) <==>
      Sequence(s) == Some(n) && s[0] as int == 0xED && |s| == 3 && s[1] as int >= 0xA0
  {
    hide Sequence, Utf8;
    if n < 0x1_0000 && s == Utf8(n) {
      Utf8IsStandard(n);
    }
    if Sequence(s) == Some(n) {
      SequenceIsWritten(s, n);
    }
  }

  lemma SequenceIsWritten(s: string, n: nat)
    requires Sequence(s) == Some(n)
    ensures n < 0x1_0000 && s == Utf8(n)
    ensures IsSurrogate(n) <==> |s| == 3 && s[0] as int == 0xED && s[1] as int >= 0xA0
  {
    if |s| == 2 {
      Digit(s[0] as int - 0xC0, s[1] as int - 0x80);
      assert s == [s[0], s[1]];
    } else if |s| == 3 {
      var high := (s[0] as int - 0xE0) * 0x40 + (s[1] as int - 0x80);
      Digit(s[0] as int - 0xE0, s[1] as int - 0x80);
      Digit(high, s[2] as int - 0x80);
      assert n == 0x40 * high + (s[2] as int - 0x80) && n / 0x1000 == n / 0x40 / 0x40;
      assert s == [s[0], s[1], s[2]];
    }
  }

  lemma Digit(high: int, low: int)
    requires high >= 0 && 0 <= low < 0x40
    ensures (0x40 * high + low) / 0x40 == high && (0x40 * high + low) % 0x40 == low
  {
  }

  /** So a surrogate pair, whose halves may use any case, comes out as two malformed sequences. */
  lemma SurrogatePairIsNotUtf8(hi: nat, lo: nat, upper: seq<bool>, upper': seq<bool>)
    requires 0xD800 <= hi <= 0xDBFF && 0xDC00 <= lo <= 0xDFFF && |upper| == |upper'| == 4
    ensures Unescape(WrittenUnit(Hex(hi, upper)) + WrittenUnit(Hex(lo, upper'))) == Utf8(hi) + Utf8(lo)
    ensures DecodeUtf8(Utf8(hi)) == None && DecodeUtf8(Utf8(lo)) == None
  {
    hide Unescape, Utf8, DecodeUtf8, WrittenUnit;
    UnescapeUnit(Hex(hi, upper), WrittenUnit(Hex(lo, upper')));
    UnescapeUnit(Hex(lo, upper'), "");
    assert WrittenUnit(Hex(lo, upper')) + "" == WrittenUnit(Hex(lo, upper'));
    UnescapeEmpty();
    Utf8IsStandard(hi);
    Utf8IsStandard(lo);
  }
}
