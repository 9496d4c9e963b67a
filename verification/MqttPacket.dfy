/** The packets of comm/src/mqtt.c: the variable-length integer and PUBLISH (sections 2.2.3 and 3.3 of MQTT 3.1.1). */
module MqttPacket {
  import opened Bytes
  import opened Wrappers

  // ----- remaining length -----

  function EncodeLength(n: nat): (s: seq<byte>)
    ensures |s| > 0
    decreases n
  {
    if n < 128 then [n] else [n % 128 + 128] + EncodeLength(n / 128)
  }

  /** The value that starts at i and the place behind it; the end of the data ends the value. */
  function DecodeLength(d: seq<byte>, i: nat): (r: (nat, nat))
    requires i < |d|
    ensures i < r.1 <= |d|
    decreases |d| - i
  {
    if d[i] >= 128 && i + 1 < |d| then
      var rest := DecodeLength(d, i + 1);
      (d[i] % 128 + 128 * rest.0, rest.1)
    else (d[i] % 128, i + 1)
  }

  /** The do-while loop, writing from start on. */
  method EncodeRemainingLength(buffer: array<byte>, start: nat, length: nat) returns (count: nat)
    requires start + |EncodeLength(length)| <= buffer.Length
    modifies buffer
    ensures count == |EncodeLength(length)|
    ensures buffer[..start + count] == old(buffer[..start]) + EncodeLength(length)
  {
    count := 0;
    var left := length;
    while true
      invariant start + count + |EncodeLength(left)| <= buffer.Length
      invariant buffer[..start + count] + EncodeLength(left) == old(buffer[..start]) + EncodeLength(length)
      decreases left
    {
      ghost var before, rest := buffer[..start + count], left;
      var b: byte := left % 128;
      left := left / 128;
      if left > 0 {
        b := b + 128;
      }
      buffer[start + count] := b;
      count := count + 1;
      assert buffer[..start + count] == before + [b];
      if left == 0 {
        break;
      }
      assert before + EncodeLength(rest) == (before + [b]) + EncodeLength(left);
    }
  }

  /** The do-while loop of the event loop: a sum and a multiplier. */
  method DecodeRemainingLength(data: seq<byte>, start: nat) returns (length: nat, index: nat)
    requires start < |data|
    ensures (length, index) == DecodeLength(data, start)
  {
    hide DecodeLength;
    index, length := start, 0;
    var multiplier: nat := 1;
    while true
      invariant start <= index < |data|
      invariant length + multiplier * DecodeLength(data, index).0 == DecodeLength(data, start).0
      invariant DecodeLength(data, index).1 == DecodeLength(data, start).1
      decreases |data| - index
    {
      var encoded: int := data[index];
      DecodeStep(data, index, multiplier);
      index := index + 1;
      length := length + encoded % 128 * multiplier;
      multiplier := multiplier * 128;
      if !(encoded >= 128 && index < |data|) {
        break;
      }
    }
  }

  lemma DecodeStep(d: seq<byte>, i: nat, m: nat)
    requires i < |d|
    ensures if d[i] >= 128 && i + 1 < |d| then
        && DecodeLength(d, i).1 == DecodeLength(d, i + 1).1
        && m * DecodeLength(d, i).0 == d[i] as int % 128 * m + m * 128 * DecodeLength(d, i + 1).0
      else DecodeLength(d, i).1 == i + 1 && m * DecodeLength(d, i).0 == d[i] as int % 128 * m
  {
    if d[i] >= 128 && i + 1 < |d| {
      Unfold(m, d[i] as int % 128, DecodeLength(d, i + 1).0);
    }
  }

  lemma Unfold(m: nat, low: nat, high: nat)
    ensures m * (low + 128 * high) == low * m + m * 128 * high
  {
  }

  /** The decoder inverts the encoder whatever follows, so the encoding says where it ends. */
  lemma {:induction false} DecodeInvertsEncode(before: seq<byte>, n: nat, rest: seq<byte>)
    ensures DecodeLength(before + EncodeLength(n) + rest, |before|) == (n, |before| + |EncodeLength(n)|)
    decreases n
  {
    var d := before + EncodeLength(n) + rest;
    assert d[|before|] == EncodeLength(n)[0];
    if n >= 128 {
      var b: byte := n % 128 + 128;
      DecodeInvertsEncode(before + [b], n / 128, rest);
      assert before + [b] + EncodeLength(n / 128) + rest == d;
      assert d[|before|] == b;
    }
  }

  /** No encoding is the beginning of another one. */
  lemma EncodingsAreSelfDelimiting(m: nat, n: nat, x: seq<byte>, y: seq<byte>)
    requires EncodeLength(m) + x == EncodeLength(n) + y
    ensures m == n && x == y
  {
    hide EncodeLength, DecodeLength;
    DecodeInvertsEncode([], m, x);
    DecodeInvertsEncode([], n, y);
    assert [] + EncodeLength(m) + x == EncodeLength(m) + x;
    assert [] + EncodeLength(n) + y == EncodeLength(n) + y;
    assert x == (EncodeLength(m) + x)[|EncodeLength(m)|..];
    assert y == (EncodeLength(n) + y)[|EncodeLength(n)|..];
  }

  const LENGTH_LIMIT := 0x1000_0000

  /** Four bytes suffice exactly below 268435456. */
  lemma FourBytes(n: nat)
    ensures |EncodeLength(n)| <= 4 <==> n < LENGTH_LIMIT
  {
    if n >= 128 {
      var a := n / 128;
      assert |EncodeLength(n)| == 1 + |EncodeLength(a)|;
      if a >= 128 {
        var b := a / 128;
        assert |EncodeLength(a)| == 1 + |EncodeLength(b)|;
        if b >= 128 {
          var c := b / 128;
          assert |EncodeLength(b)| == 1 + |EncodeLength(c)|;
          assert |EncodeLength(c)| == 1 <==> c < 128;
        }
      }
    }
  }

  // ----- PUBLISH -----

  type word = n: int | 0 <= n < 0x1_0000

  /** Two bytes, most significant first. */
  function Word(n: word): seq<byte> {
    [n / 0x100, n % 0x100]
  }

  function WordAt(d: seq<byte>, i: nat): word
    requires i + 2 <= |d|
  {
    0x100 * (d[i] as int) + d[i + 1]
  }

  /** `0x30 | (qos << 1)` in eight bits. */
  function PublishHeader(qos: byte): byte {
    var shifted := 2 * qos % 0x100;
    shifted / 0x40 * 0x40 + 0x30 + shifted % 0x10
  }

  /** The topic length is cut to 16 bits, and so is the topic. */
  function PublishBody(topic: seq<byte>, payload: seq<byte>, qos: byte, id: word): seq<byte>
  {
    Word(|topic| % 0x1_0000) + topic[..|topic| % 0x1_0000] + (if qos == 1 then Word(id) else []) + payload
  }

  function PublishPacket(topic: seq<byte>, payload: seq<byte>, qos: byte, id: word): seq<byte>
  {
    var body := PublishBody(topic, payload, qos, id);
    [PublishHeader(qos)] + EncodeLength(|body|) + body
  }

  /** The fixed header is built in an array of five bytes, so the body must be short enough for four length bytes. */
  method BuildPublishPacket(topic: seq<byte>, payload: seq<byte>, qos: byte, id: word) returns (packet: seq<byte>)
    requires |PublishBody(topic, payload, qos, id)| < LENGTH_LIMIT
    ensures packet == PublishPacket(topic, payload, qos, id)
  {
    var topicLength := |topic| % 0x1_0000;
    var body: seq<byte> := [topicLength / 0x100, topicLength % 0x100];
    body := body + topic[..topicLength];
    if qos == 1 {
      body := body + [id / 0x100, id % 0x100];
    }
    body := body + payload;
    assert body == PublishBody(topic, payload, qos, id);
    var fixedHeader := new byte[5];
    fixedHeader[0] := PublishHeader(qos);
    FourBytes(|body|);
    var count := EncodeRemainingLength(fixedHeader, 1, |body|);
    assert fixedHeader[..1 + count][..1] == [PublishHeader(qos)];
    packet := fixedHeader[..1 + count] + body;
  }

  datatype Received = Received(topic: seq<byte>, id: Option<word>, payload: seq<byte>)

  predicate IsPublish(packet: seq<byte>) {
    |packet| >= 2 && packet[0] / 0x10 == 3
  }

  /** Takes a complete PUBLISH packet apart; None is a packet that the loop drops. */
  function ParsePublish(packet: seq<byte>): Option<Received> {
    if !IsPublish(packet) then None
    else
      var (length, start) := DecodeLength(packet, 1);
      if start + length != |packet| then None else ParseBody(packet[start..], packet[0] / 2 % 4 == 1)
  }

  function ParseBody(body: seq<byte>, hasId: bool): Option<Received> {
    if |body| < 2 then None
    else
      var n := WordAt(body, 0);
      if n + 2 > |body| then None
      else if hasId then
        if n + 4 > |body| then None
        else Some(Received(body[2..n + 2], Some(WordAt(body, n + 2)), body[n + 4..]))
      else Some(Received(body[2..n + 2], None, body[n + 2..]))
  }

  lemma WordRoundTrip(d: seq<byte>, i: nat, n: word)
    requires i + 2 <= |d| && d[i] == n / 0x100 && d[i + 1] == n % 0x100
    ensures WordAt(d, i) == n
  {
  }

  lemma BodyRoundTrip(topic: seq<byte>, payload: seq<byte>, qos: byte, id: word)
    ensures ParseBody(PublishBody(topic, payload, qos, id), qos == 1) ==
      Some(Received(topic[..|topic| % 0x1_0000], if qos == 1 then Some(id) else None, payload))
  {
    hide WordAt;
    var n := |topic| % 0x1_0000;
    var t := topic[..n];
    var rest := (if qos == 1 then Word(id) else []) + payload;
    var body := PublishBody(topic, payload, qos, id);
    assert body == Word(n) + (t + rest);
    WordRoundTrip(body, 0, n);
    Middle(Word(n), t, rest);
    if qos == 1 {
      WordRoundTrip(body, n + 2, id);
      assert rest[2..] == payload;
      assert body[n + 4..] == body[n + 2..][2..];
    }
  }

  lemma Middle(a: seq<byte>, b: seq<byte>, c: seq<byte>)
    ensures (a + (b + c))[|a|..|a| + |b|] == b && (a + (b + c))[|a| + |b|..] == c
  {
  }

  /**
   All eight bits of the header byte for every QoS argument: never retained, two QoS bits, the duplicate
   flag, and the packet type, which is PUBLISH below 32 (mod 128).
   */
  lemma HeaderBits(qos: byte)
    ensures PublishHeader(qos) % 2 == 0
    ensures PublishHeader(qos) / 2 % 4 == qos % 4
    ensures PublishHeader(qos) / 8 % 2 == qos % 8 / 4
    ensures PublishHeader(qos) / 0x10 == 3 + 4 * (qos % 128 / 32)
  {
    ShiftedBits(qos);
    HeaderDigits(qos % 128 / 32, qos % 8);
    LastTwoBits(qos);
  }

  lemma ShiftedBits(q: nat)
    ensures 2 * q % 0x100 / 0x40 == q % 128 / 32 && 2 * q % 0x100 % 0x10 == 2 * (q % 8)
  {
    var h, s := q / 128, q % 128;
    LowByte(2 * q, h, 2 * s);
    DoubledDigits(s);
    LowThreeBits(q, 16 * h + s / 8, s % 8);
  }

  lemma LowByte(x: nat, h: nat, l: nat)
    requires x == 0x100 * h + l && l < 0x100
    ensures x % 0x100 == l
  {
  }

  lemma LowThreeBits(x: nat, h: nat, l: nat)
    requires x == 8 * h + l && l < 8
    ensures x % 8 == l
  {
  }

  lemma DoubledDigits(s: nat)
    requires s < 128
    ensures 2 * s / 0x40 == s / 32 && 2 * s % 0x10 == 2 * (s % 8)
  {
    assert s == 8 * (s / 8) + s % 8;
  }

  lemma LastTwoBits(q: nat)
    ensures q % 8 % 4 == q % 4
  {
    assert q == 4 * (2 * (q / 8) + q % 8 / 4) + q % 8 % 4;
  }

  lemma HeaderDigits(a: int, b: int)
    requires 0 <= a < 4 && 0 <= b < 8
    ensures (0x40 * a + 0x30 + 2 * b) / 0x10 == 4 * a + 3
    ensures (0x40 * a + 0x30 + 2 * b) % 2 == 0
    ensures (0x40 * a + 0x30 + 2 * b) / 8 % 2 == b / 4
    ensures (0x40 * a + 0x30 + 2 * b) / 2 % 4 == b % 4
  {
    assert (0x40 * a + 0x30 + 2 * b) / 2 == 0x20 * a + 0x18 + b;
  }

  /** The QoS arguments whose packets say what they carry. */
  predicate PlainQos(qos: byte) {
    qos % 128 < 32 && (qos == 1 || qos % 4 != 1)
  }

  lemma NoIdInBody(body: seq<byte>)
    ensures ParseBody(body, true).Some? ==> ParseBody(body, true).value.id.Some?
  {
  }

  /**
   For every QoS argument a built packet is taken apart into its topic (cut to 16 bits of length), its
   identifier and its payload if and only if the argument leaves the packet type alone and sets the
   identifier bit only when there is an identifier.
   */
  lemma PublishRoundTrip(topic: seq<byte>, payload: seq<byte>, qos: byte, id: word)
    ensures (ParsePublish(PublishPacket(topic, payload, qos, id)) ==
             Some(Received(topic[..|topic| % 0x1_0000], if qos == 1 then Some(id) else None, payload))) <==> PlainQos(qos)
  {
    hide PublishBody, ParseBody, EncodeLength, PublishHeader;
    var body := PublishBody(topic, payload, qos, id);
    var packet := PublishPacket(topic, payload, qos, id);
    DecodeInvertsEncode([PublishHeader(qos)], |body|, body);
    assert packet[1 + |EncodeLength(|body|)|..] == body;
    HeaderBits(qos);
    BodyRoundTrip(topic, payload, qos, id);
    NoIdInBody(body);
  }

  /** And the topic itself comes back exactly when its length fits 16 bits. */
  lemma TopicComesBackIff(topic: seq<byte>, payload: seq<byte>, qos: byte, id: word)
    ensures (ParsePublish(PublishPacket(topic, payload, qos, id)) ==
             Some(Received(topic, if qos == 1 then Some(id) else None, payload))) <==> PlainQos(qos) && |topic| < 0x1_0000
  {
    hide PublishPacket, ParsePublish, PlainQos;
    PublishRoundTrip(topic, payload, qos, id);
    TopicInPacket(topic, payload, qos, id);
    if |topic| >= 0x1_0000 {
      assert |topic[..|topic| % 0x1_0000]| < |topic|;
    } else {
      assert topic[..|topic| % 0x1_0000] == topic;
    }
  }

  /** No received topic is longer than 16 bits say. */
  lemma TopicInPacket(topic: seq<byte>, payload: seq<byte>, qos: byte, id: word)
    ensures var r := ParsePublish(PublishPacket(topic, payload, qos, id));
      r.Some? ==> |r.value.topic| < 0x1_0000
  {
    hide PublishPacket, DecodeLength;
  }
}
