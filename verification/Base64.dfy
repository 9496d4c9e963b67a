/** core/src/base64.c: sections 3.5 and 4 of RFC 4648. Strings are bytes here. */
module Base64 {
  import opened Bytes
  import opened Wrappers

  type sextet = n: int | 0 <= n < 64

  const PAD: byte := '=' as int

  /** The loop counters of both directions are 32 bits wide. */
  const COUNTER_LIMIT := 0x1_0000_0000

  // ----- the alphabet -----

  function Letter(v: sextet): byte {
    if v < 26 then 'A' as int + v
    else if v < 52 then 'a' as int + v - 26
    else if v < 62 then '0' as int + v - 52
    else if v == 62 then '+' as int
    else '/' as int
  }

  predicate IsLetter(c: byte) {
    'A' as int <= c <= 'Z' as int || 'a' as int <= c <= 'z' as int || '0' as int <= c <= '9' as int
    || c == '+' as int || c == '/' as int
  }

  /** What the decoder takes a character for: padding and every other character stand for 0. */
  function Value(c: byte): sextet {
    if 'A' as int <= c <= 'Z' as int then c - 'A' as int
    else if 'a' as int <= c <= 'z' as int then c - 'a' as int + 26
    else if '0' as int <= c <= '9' as int then c - '0' as int + 52
    else if c == '+' as int then 62
    else if c == '/' as int then 63
    else 0
  }

  lemma LetterValue(v: sextet)
    ensures IsLetter(Letter(v)) && Letter(v) != PAD && Value(Letter(v)) == v
  {
  }

  lemma ValueLetter(c: byte)
    requires IsLetter(c)
    ensures Letter(Value(c)) == c && c != PAD
  {
  }

  // ----- groups of three bytes and four letters -----

  function Quad(a: byte, b: byte, c: byte): (q: seq<byte>)
    ensures |q| == 4
  {
    var triple := 0x1_0000 * a + 0x100 * b + c;
    [Letter(triple / 0x4_0000), Letter(triple / 0x1000 % 0x40), Letter(triple / 0x40 % 0x40), Letter(triple % 0x40)]
  }

  function Triple(q: seq<byte>): (t: seq<byte>)
    requires |q| == 4
    ensures |t| == 3
  {
    var triple := 0x4_0000 * Value(q[0]) + 0x1000 * Value(q[1]) + 0x40 * Value(q[2]) + Value(q[3]);
    [triple / 0x1_0000, triple / 0x100 % 0x100, triple % 0x100]
  }

  function Encode(x: seq<byte>): seq<byte> {
    if |x| == 0 then []
    else if |x| == 1 then Quad(x[0], 0, 0)[..2] + [PAD, PAD]
    else if |x| == 2 then Quad(x[0], x[1], 0)[..3] + [PAD]
    else Quad(x[0], x[1], x[2]) + Encode(x[3..])
  }

  /** Three bytes for every four characters, padding taken for zero. */
  function Triples(s: seq<byte>): (t: seq<byte>)
    requires |s| % 4 == 0
    ensures |t| == |s| / 4 * 3
  {
    if |s| == 0 then [] else Triple(s[..4]) + Triples(s[4..])
  }

  /** The last two characters say how many bytes are cut off, each for itself. */
  function Cut(s: seq<byte>): (n: nat)
    requires |s| >= 4
    ensures n <= 2
  {
    (if s[|s| - 1] == PAD then 1 else 0) + if s[|s| - 2] == PAD then 1 else 0
  }

  function Decode(s: seq<byte>): Option<seq<byte>> {
    if |s| % 4 != 0 then None
    else if |s| == 0 then Some([])
    else Some(Triples(s)[..|s| / 4 * 3 - Cut(s)])
  }

  // ----- decoding what was encoded -----

  lemma EncodedLength(x: seq<byte>)
    ensures |Encode(x)| == 4 * ((|x| + 2) / 3)
  {
    hide Quad;
  }

  lemma Below(d: nat, m: int, n: int)
    requires d > 0 && d * m < d * n
    ensures m < n
  {
  }

  lemma Divided(x: nat, d: nat, q: nat, r: nat)
    requires d > 0 && x == d * q + r && r < d
    ensures x / d == q && x % d == r
  {
    var p := x / d;
    assert x == d * p + x % d;
    assert d * (p + 1) == d * p + d && d * (q + 1) == d * q + d;
    Below(d, p, q + 1);
    Below(d, q, p + 1);
  }

  /** How the bits of three bytes are dealt out to four letters. */
  lemma QuadIs(a: byte, b: byte, c: byte)
    ensures Quad(a, b, c) == [Letter(a / 4), Letter(16 * (a % 4) + b / 16), Letter(4 * (b % 16) + c / 64), Letter(c % 64)]
  {
    hide Letter;
    var t := 0x1_0000 * a + 0x100 * b + c;
    Divided(t, 0x4_0000, a / 4, 0x1_0000 * (a % 4) + 0x100 * b + c);
    Divided(t, 0x1000, 16 * a + b / 16, 0x100 * (b % 16) + c);
    Divided(16 * a + b / 16, 0x40, a / 4, 16 * (a % 4) + b / 16);
    Divided(t, 0x40, 0x400 * a + 4 * b + c / 64, c % 64);
    Divided(0x400 * a + 4 * b + c / 64, 0x40, 16 * a + b / 16, 4 * (b % 16) + c / 64);
  }

  /** And how the bits of four letters come together in three bytes. */
  lemma TripleIs(q: seq<byte>)
    requires |q| == 4
    ensures var a, b, c, d := Value(q[0]), Value(q[1]), Value(q[2]), Value(q[3]);
      Triple(q) == [4 * a + b / 16, 16 * (b % 16) + c / 4, 64 * (c % 4) + d]
  {
    hide Value;
    var a: int, b: int, c: int, d: int := Value(q[0]), Value(q[1]), Value(q[2]), Value(q[3]);
    var t := 0x4_0000 * a + 0x1000 * b + 0x40 * c + d;
    Divided(t, 0x1_0000, 4 * a + b / 16, 0x1000 * (b % 16) + 0x40 * c + d);
    Divided(t, 0x100, 0x400 * a + 16 * b + c / 4, 64 * (c % 4) + d);
    Divided(0x400 * a + 16 * b + c / 4, 0x100, 4 * a + b / 16, 16 * (b % 16) + c / 4);
  }

  lemma QuadValues(a: byte, b: byte, c: byte)
    ensures var q := Quad(a, b, c);
      && Value(q[0]) == a / 4 && Value(q[1]) == 16 * (a % 4) + b / 16
      && Value(q[2]) == 4 * (b % 16) + c / 64 && Value(q[3]) == c % 64
      && AllLetters(q) && PAD !in q
  {
    hide Quad, Letter, Value, IsLetter;
    QuadIs(a, b, c);
    LetterValue(a / 4);
    LetterValue(16 * (a % 4) + b / 16);
    LetterValue(4 * (b % 16) + c / 64);
    LetterValue(c % 64);
  }

  /** The bits of three bytes go through four letters. */
  lemma TripleOfQuad(a: byte, b: byte, c: byte)
    ensures Triple(Quad(a, b, c)) == [a, b, c]
  {
    hide Quad, Triple, Value;
    QuadValues(a, b, c);
    TripleIs(Quad(a, b, c));
    ByteBits(a, b, c);
  }

  lemma ByteBits(a: byte, b: byte, c: byte)
    ensures var w: int, x: int, y: int, z: int := a / 4, 16 * (a % 4) + b / 16, 4 * (b % 16) + c / 64, c % 64;
      && 4 * w + x / 16 == a && 16 * (x % 16) + y / 4 == b && 64 * (y % 4) + z == c
  {
  }

  lemma TripleIgnoresPadding(q: seq<byte>, r: seq<byte>)
    requires |q| == |r| == 4
    requires forall i :: 0 <= i < 4 ==> Value(q[i]) == Value(r[i])
    ensures Triple(q) == Triple(r)
  {
  }

  predicate AllLetters(q: seq<byte>) {
    forall i :: 0 <= i < |q| ==> IsLetter(q[i])
  }

  lemma DecodeStep(s: seq<byte>)
    requires |s| % 4 == 0 && |s| > 4
    ensures Decode(s) == Some(Triple(s[..4]) + Decode(s[4..]).value)
  {
    hide Triple;
    var rest := s[4..];
    assert Cut(s) == Cut(rest);
    assert Triples(s)[..|s| / 4 * 3 - Cut(s)] == Triple(s[..4]) + Triples(rest)[..|rest| / 4 * 3 - Cut(rest)];
  }

  lemma DecodeEmpty()
    ensures Decode([]) == Some([])
  {
  }

  lemma DecodeLast(q: seq<byte>)
    requires |q| == 4
    ensures Decode(q) == Some(Triple(q)[..3 - Cut(q)])
  {
    hide Triple;
    assert q[..4] == q && q[4..] == [];
    assert Triples([]) == [];
    assert Triples(q) == Triple(q) + Triples([]);
    assert Triple(q) + [] == Triple(q);
  }

  /** Decoding gives back every byte string that was encoded. */
  lemma {:induction false} DecodeInvertsEncode(x: seq<byte>)
    ensures Decode(Encode(x)) == Some(x)
  {
    hide Quad, Triple, Triples, Decode, Value, Letter;
    EncodedLength(x);
    if |x| == 0 {
      DecodeEmpty();
    } else if |x| <= 3 {
      LastQuad(x);
    } else {
      var q := Quad(x[0], x[1], x[2]);
      DecodeInvertsEncode(x[3..]);
      EncodedLength(x[3..]);
      TripleOfQuad(x[0], x[1], x[2]);
      assert Encode(x)[..4] == q && Encode(x)[4..] == Encode(x[3..]);
      DecodeStep(Encode(x));
      assert [x[0], x[1], x[2]] + x[3..] == x;
    }
  }

  lemma LastQuad(x: seq<byte>)
    requires 1 <= |x| <= 3
    ensures |Encode(x)| == 4 && Decode(Encode(x)) == Some(x)
  {
    hide Quad, Triple, Decode, Letter, Value;
    var b := if |x| > 1 then x[1] else 0;
    var c := if |x| > 2 then x[2] else 0;
    var full := Quad(x[0], b, c);
    var q := Encode(x);
    EncodeLast(x);
    QuadValues(x[0], b, c);
    PadValue();
    TripleIgnoresPadding(q, full);
    TripleOfQuad(x[0], b, c);
    DecodeLast(q);
    assert [x[0], b, c][..|x|] == x;
  }

  lemma PadValue()
    ensures Value(PAD) == 0 && !IsLetter(PAD)
  {
  }

  lemma EncodeLast(x: seq<byte>)
    requires 1 <= |x| <= 3
    ensures |x| == 1 ==> Encode(x) == Quad(x[0], 0, 0)[..2] + [PAD, PAD]
    ensures |x| == 2 ==> Encode(x) == Quad(x[0], x[1], 0)[..3] + [PAD]
    ensures |x| == 3 ==> Encode(x) == Quad(x[0], x[1], x[2])
  {
    hide Quad;
    if |x| == 3 {
      assert Encode(x[3..]) == [];
      assert Quad(x[0], x[1], x[2]) + [] == Quad(x[0], x[1], x[2]);
    }
  }

  // ----- encoding what was decoded -----

  /** Letters only, padding only at the end, and the bits that padding leaves unused are zero. */
  predicate Canonical(s: seq<byte>) {
    if |s| == 0 then true
    else if |s| < 4 then false
    else if |s| > 4 then AllLetters(s[..4]) && Canonical(s[4..])
    else
      || AllLetters(s)
      || (AllLetters(s[..3]) && s[3] == PAD && Value(s[2]) % 4 == 0)
      || (AllLetters(s[..2]) && s[2] == PAD && s[3] == PAD && Value(s[1]) % 16 == 0)
  }

  lemma {:induction false} CanonicalLength(s: seq<byte>)
    requires Canonical(s)
    ensures |s| % 4 == 0
  {
    if |s| > 4 {
      CanonicalLength(s[4..]);
    }
  }

  lemma {:induction false} EncodingIsCanonical(x: seq<byte>)
    ensures Canonical(Encode(x))
  {
    hide Quad, Letter, Value, IsLetter;
    if |x| > 0 {
      var b := if |x| > 1 then x[1] else 0;
      var c := if |x| > 2 then x[2] else 0;
      QuadValues(x[0], b, c);
      if |x| > 3 {
        EncodedLength(x[3..]);
        EncodingIsCanonical(x[3..]);
        assert Encode(x)[..4] == Quad(x[0], x[1], x[2]) && Encode(x)[4..] == Encode(x[3..]);
      } else {
        EncodeLast(x);
      }
    }
  }

  /** Four letters go through three bytes. */
  lemma QuadOfTriple(q: seq<byte>)
    requires |q| == 4 && AllLetters(q)
    ensures var t := Triple(q); Quad(t[0], t[1], t[2]) == q
  {
    hide Letter, Value, Quad, Triple, IsLetter;
    var a: int, b: int, c: int, d: int := Value(q[0]), Value(q[1]), Value(q[2]), Value(q[3]);
    ValueLetter(q[0]);
    ValueLetter(q[1]);
    ValueLetter(q[2]);
    ValueLetter(q[3]);
    TripleIs(q);
    QuadIs(4 * a + b / 16, 16 * (b % 16) + c / 4, 64 * (c % 4) + d);
    Bits(a, b, c, d);
  }

  lemma Bits(a: sextet, b: sextet, c: sextet, d: sextet)
    ensures var x: int, y: int, z: int := 4 * a + b / 16, 16 * (b % 16) + c / 4, 64 * (c % 4) + d;
      && x / 4 == a && 16 * (x % 4) + y / 16 == b && 4 * (y % 16) + z / 64 == c && z % 64 == d
  {
  }

  /** The letter A stands for zero, so padding may be read as A. */
  lemma CanonicalLast(q: seq<byte>)
    requires |q| == 4 && Canonical(q)
    ensures Decode(q).Some? && Encode(Decode(q).value) == q
  {
    hide Letter, Quad, Triple, Decode, Value, IsLetter, Encode;
    var full := if AllLetters(q) then q else if AllLetters(q[..3]) then q[..3] + [Letter(0)] else q[..2] + [Letter(0), Letter(0)];
    PadValue();
    LetterValue(0);
    LettersAreNoPadding(q);
    TripleIgnoresPadding(q, full);
    QuadOfTriple(full);
    TripleIs(full);
    DecodeLast(q);
    EncodeLast(Decode(q).value);
  }

  lemma LettersAreNoPadding(q: seq<byte>)
    ensures forall i :: 0 <= i < |q| && IsLetter(q[i]) ==> q[i] != PAD
  {
  }

  lemma {:induction false} CanonicalComesBack(s: seq<byte>)
    requires Canonical(s)
    ensures Decode(s).Some? && Encode(Decode(s).value) == s
  {
    hide Quad, Triple, Decode, Value, Letter, IsLetter;
    CanonicalLength(s);
    if |s| == 0 {
      DecodeEmpty();
    } else if |s| == 4 {
      CanonicalLast(s);
    } else {
      CanonicalComesBack(s[4..]);
      QuadOfTriple(s[..4]);
      DecodeStep(s);
      var t, rest := Triple(s[..4]), Decode(s[4..]).value;
      assert (t + rest)[3..] == rest;
      assert s[..4] + s[4..] == s;
      NotEmpty(rest, s[4..]);
    }
  }

  lemma NotEmpty(x: seq<byte>, s: seq<byte>)
    requires Encode(x) == s && |s| > 0
    ensures |x| > 0
  {
  }

  /** Encoding what was decoded gives the text back exactly for canonical texts. */
  lemma EncodeInvertsDecodeIff(s: seq<byte>)
    ensures Decode(s).Some? && Encode(Decode(s).value) == s <==> Canonical(s)
  {
    hide Encode, Decode, Canonical;
    if Canonical(s) {
      CanonicalComesBack(s);
    }
    if Decode(s).Some? && Encode(Decode(s).value) == s {
      EncodingIsCanonical(Decode(s).value);
    }
  }

  // ----- the encoding, bit by bit -----

  /** Table 1 of RFC 4648. */
  const ALPHABET: string := Row(0) + Row(1) + Row(2) + Row(3) + Row(4)

  function Row(i: nat): (s: string)
    requires i < 5
    ensures |s| == if i < 4 then 13 else 12
  {
    match i
    case 0 => "ABCDEFGHIJKLM"
    case 1 => "NOPQRSTUVWXYZ"
    case 2 => "abcdefghijklm"
    case 3 => "nopqrstuvwxyz"
    case _ => "0123456789+/"
  }

  function Two(i: nat): (n: nat)
    requires i < 8
    ensures n > 0
  {
    match i
    case 0 => 1 case 1 => 2 case 2 => 4 case 3 => 8 case 4 => 16 case 5 => 32 case 6 => 64 case _ => 128
  }

  /** Bit j of the data, the highest bit of the first byte first; zero behind the end. */
  function Bit(x: seq<byte>, j: nat): (b: nat)
    ensures b < 2
  {
    if j / 8 < |x| then x[j / 8] / Two(7 - j % 8) % 2 else 0
  }

  /** The k-th group of six bits. */
  function Sextet(x: seq<byte>, k: nat): sextet {
    var j := 6 * k;
    32 * Bit(x, j) + 16 * Bit(x, j + 1) + 8 * Bit(x, j + 2) + 4 * Bit(x, j + 3) + 2 * Bit(x, j + 4) + Bit(x, j + 5)
  }

  lemma CapitalLetter(j: nat)
    requires j < 13
    ensures Row(0)[j] as int == 'A' as int + j && Row(1)[j] as int == 'N' as int + j
  {
  }

  lemma SmallLetter(j: nat)
    requires j < 13
    ensures Row(2)[j] as int == 'a' as int + j && Row(3)[j] as int == 'n' as int + j
  {
  }

  lemma OtherLetter(j: nat)
    requires j < 12
    ensures Row(4)[j] as int == if j < 10 then '0' as int + j else if j == 10 then '+' as int else '/' as int
  {
  }

  lemma InAlphabet(a: string, b: string, c: string, d: string, e: string, v: nat)
    requires |a| == |b| == |c| == |d| == 13 && |e| == 12 && v < 64
    ensures |a + b + c + d + e| == 64
    ensures (a + b + c + d + e)[v] ==
      if v < 13 then a[v] else if v < 26 then b[v - 13] else if v < 39 then c[v - 26] else if v < 52 then d[v - 39] else e[v - 52]
  {
  }

  lemma AlphabetLetter(v: sextet)
    ensures |ALPHABET| == 64 && ALPHABET[v] as int == Letter(v)
  {
    hide Row;
    InAlphabet(Row(0), Row(1), Row(2), Row(3), Row(4), v);
    if v < 26 {
      CapitalLetter(v % 13);
    } else if v < 52 {
      SmallLetter(v % 13);
    } else {
      OtherLetter(v - 52);
    }
  }

  lemma Halves(a: byte)
    ensures a / 4 == a / 2 / 2 && a / 8 == a / 4 / 2 && a / 16 == a / 8 / 2
    ensures a / 32 == a / 16 / 2 && a / 64 == a / 32 / 2 && a / 128 == a / 64 / 2 && a / 128 < 2
  {
  }

  lemma Parts(n: nat)
    ensures n == 2 * (n / 2) + n % 2
  {
  }

  lemma LowPart(a: int, d: int)
    requires a >= 0 && d > 0
    ensures a % d == a - d * (a / d)
  {
  }

  lemma AllParts(a: byte)
    ensures a == 2 * (a / 2) + a % 2 && a / 2 == 2 * (a / 4) + a / 2 % 2 && a / 4 == 2 * (a / 8) + a / 4 % 2
    ensures a / 8 == 2 * (a / 16) + a / 8 % 2 && a / 16 == 2 * (a / 32) + a / 16 % 2
    ensures a / 32 == 2 * (a / 64) + a / 32 % 2 && a / 64 == 2 * (a / 128) + a / 64 % 2 && a / 128 == a / 128 % 2
  {
    Halves(a);
    Parts(a);
    Parts(a / 2);
    Parts(a / 4);
    Parts(a / 8);
    Parts(a / 16);
    Parts(a / 32);
    Parts(a / 64);
  }

  lemma HighBits(a: byte)
    ensures a / 4 == 32 * (a / 128 % 2) + 16 * (a / 64 % 2) + 8 * (a / 32 % 2) + 4 * (a / 16 % 2) + 2 * (a / 8 % 2) + a / 4 % 2
    ensures a / 16 == 8 * (a / 128 % 2) + 4 * (a / 64 % 2) + 2 * (a / 32 % 2) + a / 16 % 2
    ensures a / 64 == 2 * (a / 128 % 2) + a / 64 % 2
  {
    AllParts(a);
  }

  lemma LowBits(a: byte)
    ensures a % 4 == 2 * (a / 2 % 2) + a % 2
    ensures a % 16 == 8 * (a / 8 % 2) + 4 * (a / 4 % 2) + 2 * (a / 2 % 2) + a % 2
    ensures a % 64 == 32 * (a / 32 % 2) + 16 * (a / 16 % 2) + 8 * (a / 8 % 2) + 4 * (a / 4 % 2) + 2 * (a / 2 % 2) + a % 2
  {
    AllParts(a);
    LowPart(a, 4);
    LowPart(a, 16);
    LowPart(a, 64);
  }

  lemma BitOf(x: seq<byte>, i: nat, r: nat)
    requires r < 8
    ensures Bit(x, 8 * i + r) == ByteOr0(x, i) / Two(7 - r) % 2
  {
    assert (8 * i + r) / 8 == i && (8 * i + r) % 8 == r;
  }

  function ByteOr0(x: seq<byte>, i: nat): byte {
    if i < |x| then x[i] else 0
  }

  /** The first four groups are those of the first three bytes. */
  lemma FirstSextets(x: seq<byte>)
    ensures var a: int, b: int, c: int := ByteOr0(x, 0), ByteOr0(x, 1), ByteOr0(x, 2);
      && Sextet(x, 0) == a / 4 && Sextet(x, 1) == 16 * (a % 4) + b / 16
      && Sextet(x, 2) == 4 * (b % 16) + c / 64 && Sextet(x, 3) == c % 64
  {
    SextetIs(x, 0);
    SextetIs(x, 1);
    SextetIs(x, 2);
    SextetIs(x, 3);
  }

  lemma SextetIs(x: seq<byte>, k: nat)
    requires k < 4
    ensures var a: int, b: int, c: int := ByteOr0(x, 0), ByteOr0(x, 1), ByteOr0(x, 2);
      Sextet(x, k) == if k == 0 then a / 4 else if k == 1 then 16 * (a % 4) + b / 16
                      else if k == 2 then 4 * (b % 16) + c / 64 else c % 64
  {
    hide Bit, ByteOr0;
    if k == 0 {
      HighBits(ByteOr0(x, 0));
      ByteOfBits(x, 0);
    } else if k == 1 {
      LowBits(ByteOr0(x, 0));
      HighBits(ByteOr0(x, 1));
      ByteOfBits(x, 0);
      ByteOfBits(x, 1);
    } else if k == 2 {
      LowBits(ByteOr0(x, 1));
      HighBits(ByteOr0(x, 2));
      ByteOfBits(x, 1);
      ByteOfBits(x, 2);
    } else {
      LowBits(ByteOr0(x, 2));
      ByteOfBits(x, 2);
    }
  }

  lemma ByteOfBits(x: seq<byte>, i: nat)
    ensures var a: int := ByteOr0(x, i);
      && Bit(x, 8 * i) == a / 128 % 2 && Bit(x, 8 * i + 1) == a / 64 % 2
      && Bit(x, 8 * i + 2) == a / 32 % 2 && Bit(x, 8 * i + 3) == a / 16 % 2
      && Bit(x, 8 * i + 4) == a / 8 % 2 && Bit(x, 8 * i + 5) == a / 4 % 2
      && Bit(x, 8 * i + 6) == a / 2 % 2 && Bit(x, 8 * i + 7) == a % 2
  {
    hide Bit, ByteOr0;
    BitOf(x, i, 0);
    BitOf(x, i, 1);
    BitOf(x, i, 2);
    BitOf(x, i, 3);
    BitOf(x, i, 4);
    BitOf(x, i, 5);
    BitOf(x, i, 6);
    BitOf(x, i, 7);
  }

  lemma LaterBit(x: seq<byte>, j: nat)
    requires |x| >= 3 && j >= 24
    ensures Bit(x, j) == Bit(x[3..], j - 24)
  {
    assert (j - 24) / 8 == j / 8 - 3 && (j - 24) % 8 == j % 8;
  }

  lemma LaterSextets(x: seq<byte>, k: nat)
    requires |x| >= 3 && k >= 4
    ensures Sextet(x, k) == Sextet(x[3..], k - 4)
  {
    hide Bit;
    LaterBit(x, 6 * k);
    LaterBit(x, 6 * k + 1);
    LaterBit(x, 6 * k + 2);
    LaterBit(x, 6 * k + 3);
    LaterBit(x, 6 * k + 4);
    LaterBit(x, 6 * k + 5);
  }

  lemma QuadLetters(x: seq<byte>)
    ensures var q := Quad(ByteOr0(x, 0), ByteOr0(x, 1), ByteOr0(x, 2));
      forall k :: 0 <= k < 4 ==> q[k] == Letter(Sextet(x, k))
  {
    hide Quad, Letter, Sextet, ByteOr0;
    FirstSextets(x);
    QuadIs(ByteOr0(x, 0), ByteOr0(x, 1), ByteOr0(x, 2));
  }

  /** Every character of an encoding: the letter for its six bits of the data, or '=' where the data have ended. */
  lemma {:induction false} EncodingIsSextets(x: seq<byte>, k: nat)
    requires k < |Encode(x)|
    ensures Encode(x)[k] == (if 6 * k < 8 * |x| then ALPHABET[Sextet(x, k)] else '=') as int
    decreases |x|
  {
    hide Quad, Letter, Sextet;
    AlphabetLetter(Sextet(x, k));
    QuadLetters(x);
    EncodedLength(x);
    if 1 <= |x| <= 3 {
      EncodeLast(x);
    } else if |x| > 3 && k >= 4 {
      EncodedLength(x[3..]);
      EncodingIsSextets(x[3..], k - 4);
      LaterSextets(x, k);
    }
  }

  // ----- the encoding loop -----

  /** The letters before padding is written over the last ones: missing bytes count as zero. */
  function Letters(x: seq<byte>): seq<byte> {
    if |x| == 0 then []
    else if |x| == 1 then Quad(x[0], 0, 0)
    else if |x| == 2 then Quad(x[0], x[1], 0)
    else Quad(x[0], x[1], x[2]) + Letters(x[3..])
  }

  /** The modulus table. */
  function PadCount(n: nat): (k: nat)
    ensures k <= 2
  {
    if n % 3 == 0 then 0 else 3 - n % 3
  }

  lemma {:induction false} PaddingOverLetters(x: seq<byte>)
    ensures |Letters(x)| == |Encode(x)| >= PadCount(|x|)
    ensures Encode(x) == Letters(x)[..|Letters(x)| - PadCount(|x|)] + seq(PadCount(|x|), _ => PAD)
  {
    hide Quad, Encode, Letters;
    LettersUnfold(x);
    if |x| == 1 || |x| == 2 {
      EncodeLast(x);
    } else if |x| >= 3 {
      PaddingOverLetters(x[3..]);
      SamePadding(|x|);
      CutBehind(Quad(x[0], x[1], x[2]), Letters(x[3..]), PadCount(|x|), seq(PadCount(|x|), _ => PAD));
    }
  }

  lemma SamePadding(n: nat)
    requires n >= 3
    ensures PadCount(n - 3) == PadCount(n)
  {
  }

  lemma LettersUnfold(x: seq<byte>)
    ensures |x| == 0 ==> Letters(x) == [] && Encode(x) == []
    ensures |x| == 1 ==> Letters(x) == Quad(x[0], 0, 0)
    ensures |x| == 2 ==> Letters(x) == Quad(x[0], x[1], 0)
    ensures |x| >= 3 ==>
      && Letters(x) == Quad(x[0], x[1], x[2]) + Letters(x[3..])
      && Encode(x) == Quad(x[0], x[1], x[2]) + Encode(x[3..])
  {
    hide Quad;
    if |x| == 3 {
      EncodeLast(x);
      assert Encode(x[3..]) == [];
    }
  }

  lemma CutBehind(a: seq<byte>, b: seq<byte>, k: nat, pad: seq<byte>)
    requires k <= |b|
    ensures (a + b)[..|a + b| - k] + pad == a + (b[..|b| - k] + pad)
  {
    assert (a + b)[..|a + b| - k] == a + b[..|b| - k];
  }

  /** One turn of the loop. */
  lemma LettersStep(x: seq<byte>, i: nat, j: nat)
    requires i < |x| && j == (if i + 3 <= |x| then i + 3 else |x|)
    ensures Letters(x[i..]) ==
      Quad(x[i], if i + 1 < |x| then x[i + 1] else 0, if i + 2 < |x| then x[i + 2] else 0) + Letters(x[j..])
  {
    hide Quad;
    if i + 3 <= |x| {
      assert x[i..][3..] == x[j..];
    }
  }

  lemma LettersLength(x: seq<byte>)
    ensures |Letters(x)| == 4 * ((|x| + 2) / 3)
    ensures |x| == 0 ==> Letters(x) == []
  {
    hide Quad;
    PaddingOverLetters(x);
    EncodedLength(x);
  }

  /** The encoded text with its terminating NUL. */
  method EncodeBytes(data: seq<byte>) returns (encoded: array<byte>, length: nat)
    requires 4 * ((|data| + 2) / 3) < COUNTER_LIMIT
    ensures fresh(encoded) && encoded.Length == length + 1
    ensures encoded[..length] == Encode(data) && encoded[length] == 0
  {
    hide Letters, Quad, Encode;
    length := 4 * ((|data| + 2) / 3);
    encoded := new byte[length + 1](_ => 0);
    var i, j := 0, 0;
    assert data[0..] == data;
    LettersLength(data);
    while i < |data|
      invariant i <= |data| && j <= length
      invariant encoded[..j] + Letters(data[i..]) == Letters(data)
      invariant encoded[length] == 0
    {
      ghost var i0, done := i, encoded[..j];
      var a, b, c := data[i], 0, 0;
      i := i + 1;
      if i < |data| {
        b := data[i];
        i := i + 1;
      }
      if i < |data| {
        c := data[i];
        i := i + 1;
      }
      LettersStep(data, i0, i);
      assert done + Letters(data[i0..]) == (done + Quad(a, b, c)) + Letters(data[i..]);
      WriteQuad(encoded, j, a, b, c);
      j := j + 4;
    }
    LettersLength(data[i..]);
    PaddingOverLetters(data);
    WritePadding(encoded, length, PadCount(|data|));
  }

  method WriteQuad(encoded: array<byte>, j: nat, a: byte, b: byte, c: byte)
    requires j + 4 < encoded.Length
    modifies encoded
    ensures encoded[..j + 4] == old(encoded[..j]) + Quad(a, b, c)
    ensures encoded[encoded.Length - 1] == old(encoded[encoded.Length - 1])
  {
    hide Letter;
    var triple := 0x1_0000 * (a as int) + 0x100 * (b as int) + c;
    encoded[j] := Letter(triple / 0x4_0000);
    encoded[j + 1] := Letter(triple / 0x1000 % 0x40);
    encoded[j + 2] := Letter(triple / 0x40 % 0x40);
    encoded[j + 3] := Letter(triple % 0x40);
    assert encoded[..j] == old(encoded[..j]);
    assert encoded[..j + 4] == encoded[..j] + Quad(a, b, c);
  }

  method WritePadding(encoded: array<byte>, length: nat, count: nat)
    requires count <= length < encoded.Length
    modifies encoded
    ensures encoded[..length] == old(encoded[..length - count]) + seq(count, _ => PAD)
    ensures encoded[length] == old(encoded[length])
  {
    for i := 0 to count
      invariant encoded[..length] == old(encoded[..length - i]) + seq(i, _ => PAD)
      invariant encoded[length] == old(encoded[length])
    {
      encoded[length - 1 - i] := PAD;
    }
  }

  // ----- the decoding loop -----

  /** The table of the decoder: 0 for everything that is no letter. */
  method DecodingTable() returns (table: array<byte>)
    ensures fresh(table) && table.Length == 256
    ensures forall c: byte :: table[c] == Value(c)
  {
    table := new byte[256](_ => 0);
    for i := 0 to 64
      invariant forall c :: 0 <= c < 256 ==> table[c] == if IsLetter(c) && Value(c) < i then Value(c) else 0
    {
      LetterValue(i);
      forall c: byte | IsLetter(c) && Value(c) == i ensures c == Letter(i) {
        ValueLetter(c);
      }
      table[Letter(i)] := i;
    }
  }

  lemma {:induction false} TriplesAt(s: seq<byte>, g: nat)
    requires |s| % 4 == 0 && 4 * g < |s|
    ensures 3 * g + 3 <= |Triples(s)| && Triples(s)[3 * g..3 * g + 3] == Triple(s[4 * g..4 * g + 4])
    decreases g
  {
    hide Triple, Triples;
    TriplesStep(s);
    var rest := s[4..];
    if g > 0 {
      TriplesAt(rest, g - 1);
      assert rest[4 * (g - 1)..4 * (g - 1) + 4] == s[4 * g..4 * g + 4];
      assert Triples(s)[3 * g..3 * g + 3] == Triples(rest)[3 * (g - 1)..3 * (g - 1) + 3];
    }
  }

  lemma TriplesStep(s: seq<byte>)
    requires |s| % 4 == 0 && |s| > 0
    ensures |s[4..]| % 4 == 0 && Triples(s) == Triple(s[..4]) + Triples(s[4..])
  {
    hide Triple;
  }

  /** The decoded bytes; None for a length that is no multiple of four. */
  method DecodeText(s: seq<byte>) returns (decoded: Option<array<byte>>, length: nat)
    requires |s| < COUNTER_LIMIT
    ensures decoded.Some? == Decode(s).Some?
    ensures decoded.Some? ==> fresh(decoded.value) && length <= decoded.value.Length && Decode(s) == Some(decoded.value[..length])
  {
    hide Triples, Triple;
    length := 0;
    if |s| == 0 {
      var empty := new byte[1](_ => 0);
      return Some(empty), 0;
    }
    var table := DecodingTable();
    if |s| % 4 != 0 {
      return None, 0;
    }
    length := |s| / 4 * 3;
    if s[|s| - 1] == PAD {
      length := length - 1;
    }
    if s[|s| - 2] == PAD {
      length := length - 1;
    }
    var out := FillTriples(table, s, length);
    decoded := Some(out);
  }

  method FillTriples(table: array<byte>, s: seq<byte>, length: nat) returns (out: array<byte>)
    requires table.Length == 256 && forall c: byte :: table[c] == Value(c)
    requires |s| % 4 == 0 && length <= |Triples(s)|
    ensures fresh(out) && length <= out.Length && out[..length] == Triples(s)[..length]
  {
    hide Triples, Triple, Value;
    out := new byte[if length == 0 then 1 else length](_ => 0);
    var i, j := 0, 0;
    ghost var g := 0;
    while i < |s|
      invariant i == 4 * g <= |s| && j == (if 3 * g < length then 3 * g else length)
      invariant out[..j] == Triples(s)[..j]
    {
      TriplesAt(s, g);
      var triple := ReadTriple(table, s[i..i + 4]);
      ghost var j0 := j;
      j := WriteTriple(out, j, length, triple, Triple(s[i..i + 4]));
      ExtendPrefix(Triples(s), j0, Triple(s[i..i + 4]), j);
      i := i + 4;
      g := g + 1;
    }
  }

  /** Four look-ups; padding is zero without one. */
  method ReadTriple(table: array<byte>, q: seq<byte>) returns (triple: nat)
    requires table.Length == 256 && (forall c: byte :: table[c] == Value(c)) && |q| == 4
    ensures triple < 0x100_0000 && Triple(q) == [triple / 0x1_0000, triple / 0x100 % 0x100, triple % 0x100]
  {
    PadValue();
    var a: int := if q[0] == PAD then 0 else table[q[0]];
    var b: int := if q[1] == PAD then 0 else table[q[1]];
    var c: int := if q[2] == PAD then 0 else table[q[2]];
    var d: int := if q[3] == PAD then 0 else table[q[3]];
    assert a == Value(q[0]) && b == Value(q[1]) && c == Value(q[2]) && d == Value(q[3]);
    hide Value;
    triple := 0x4_0000 * a + 0x1000 * b + 0x40 * c + d;
  }

  /** Bytes are written as long as there is room. */
  method WriteTriple(out: array<byte>, j: nat, length: nat, triple: nat, ghost t: seq<byte>) returns (next: nat)
    requires j <= length <= out.Length && |t| == 3 && triple < 0x100_0000
    requires t == [triple / 0x1_0000, triple / 0x100 % 0x100, triple % 0x100]
    modifies out
    ensures next == if j + 3 < length then j + 3 else length
    ensures out[..next] == old(out[..j]) + t[..next - j]
  {
    next := j;
    if next < length {
      out[next] := triple / 0x1_0000 % 0x100;
      next := next + 1;
    }
    if next < length {
      out[next] := triple / 0x100 % 0x100;
      next := next + 1;
    }
    if next < length {
      out[next] := triple % 0x100;
      next := next + 1;
    }
    assert out[..j] == old(out[..j]);
    assert out[..next] == out[..j] + t[..next - j];
  }

  /** A prefix of s and the beginning of what follows it. */
  lemma ExtendPrefix(s: seq<byte>, j: nat, t: seq<byte>, k: nat)
    requires j <= k <= j + 3 && k <= |s| && |t| == 3
    requires k > j ==> j + 3 <= |s| && s[j..j + 3] == t
    ensures s[..k] == s[..j] + t[..k - j]
  {
    if k > j {
      assert s[..k] == s[..j] + s[j..j + 3][..k - j];
    }
  }
}
