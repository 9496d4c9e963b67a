/** The checksum, the frames, the receive check and the coil packing of comm/src/modbus.c. */
module Modbus {
  import opened Bytes
  import opened Wrappers
  import opened CrcTheory
  import opened CrcOrder
  import opened CrcRegister

  // ----- the checksum -----

  function CrcBits(crc: uint16, n: nat): uint16
    decreases n, crc
  {
    if n == 0 then crc else
      BitsOfStep(crc);
      CrcBits(CrcBit(crc), n - 1)
  }

  function CrcByte(crc: uint16, b: byte): uint16 {
    XorFits16(crc, b);
    CrcBits(BitXor(crc, b), 8)
  }

  /** The register after the bytes of m, starting from crc. */
  function Crc(crc: uint16, m: seq<byte>): uint16
    decreases |m|
  {
    if m == [] then crc else Crc(CrcByte(crc, m[0]), m[1..])
  }

  const CRC_START: uint16 := 0xFFFF

  lemma XorFits16(a: uint16, b: uint16)
    ensures BitXor(a, b) < 0x1_0000
  {
    Powers();
    FitsBelowPower(a, 16);
    FitsBelowPower(b, 16);
    XorFits(a, b, 16);
    FitsBelowPower(BitXor(a, b), 16);
  }

  method Crc16(data: seq<byte>) returns (crc: uint16)
    ensures crc == Crc(CRC_START, data)
  {
    crc := CRC_START;
    for i := 0 to |data|
      invariant Crc(crc, data[i..]) == Crc(CRC_START, data)
    {
      ghost var before := crc;
      XorFits16(crc, data[i]);
      crc := BitXor(crc, data[i]);
      for j := 0 to 8
        invariant CrcBits(crc, 8 - j) == CrcByte(before, data[i])
      {
        BitsOfStep(crc);
        if crc % 2 == 1 {
          crc := BitXor(crc / 2, 0xA001);
        } else {
          crc := crc / 2;
        }
      }
      assert data[i..][1..] == data[i + 1..];
    }
  }

  // ----- bytes as bits -----

  ghost function ByteBits(b: byte): (s: seq<bool>)
    ensures |s| == 8
  {
    BitsOf(b, 8)
  }

  /** The bits of a block of bytes as a serial line sends them. */
  ghost function Flat(m: seq<byte>): (s: seq<bool>)
    ensures |s| == 8 * |m|
  {
    if m == [] then [] else ByteBits(m[0]) + Flat(m[1..])
  }

  lemma {:induction false} FlatConcat(a: seq<byte>, b: seq<byte>)
    ensures Flat(a + b) == Flat(a) + Flat(b)
  {
    if a == [] {
      assert a + b == b;
    } else {
      assert (a + b)[1..] == a[1..] + b;
      FlatConcat(a[1..], b);
    }
  }

  lemma {:induction false} FlatBit(m: seq<byte>, i: nat, j: nat)
    requires i < |m| && j < 8
    ensures Flat(m)[8 * i + j] == ByteBits(m[i])[j]
  {
    if i > 0 {
      FlatBit(m[1..], i - 1, j);
      assert Flat(m)[8 * i + j] == Flat(m[1..])[8 * (i - 1) + j];
    }
  }

  lemma ByteFits(b: byte)
    ensures Fits(b, 8)
  {
    Powers();
    FitsBelowPower(b, 8);
  }

  lemma ByteBitsDetermine(a: byte, b: byte)
    requires ByteBits(a) == ByteBits(b)
    ensures a == b
  {
    ByteFits(a);
    ByteFits(b);
    BitsDetermine(a, b, 8);
  }

  // ----- the checksum on bits -----

  lemma {:induction false} WordOfCrcBits(c: uint16, n: nat)
    ensures BitsOfWord(CrcBits(c, n)) == Steps(BitsOfWord(c), n)
    decreases n, c
  {
    if n > 0 {
      BitsOfStep(c);
      WordOfCrcBits(CrcBit(c), n - 1);
    }
  }

  lemma WordOfCrcByte(c: uint16, b: byte)
    ensures BitsOfWord(CrcByte(c, b)) == Serial(BitsOfWord(c), ByteBits(b))
  {
    XorFits16(c, b);
    WordOfCrcBits(BitXor(c, b), 8);
    BitsOfXor(c, b, 16);
    ByteFits(b);
    BitsOfSmall(b, 8, 16);
    SerialIsSteps(BitsOfWord(c), ByteBits(b));
  }

  /** The byte-wise checksum of the code is the bit-serial register of the standard. */
  lemma {:induction false} WordOfCrc(c: uint16, m: seq<byte>)
    ensures BitsOfWord(Crc(c, m)) == Serial(BitsOfWord(c), Flat(m))
    decreases |m|
  {
    if m != [] {
      WordOfCrcByte(c, m[0]);
      WordOfCrc(CrcByte(c, m[0]), m[1..]);
      SerialConcat(BitsOfWord(c), ByteBits(m[0]), Flat(m[1..]));
    }
  }

  // ----- frames -----

  /** Low byte first. */
  function ChecksumBytes(crc: uint16): seq<byte> {
    [crc % 0x100, crc / 0x100]
  }

  function RtuFrame(unit: byte, code: byte, data: seq<byte>): seq<byte> {
    var body := [unit, code] + data;
    body + ChecksumBytes(Crc(CRC_START, body))
  }

  function TcpFrame(transaction: uint16, unit: byte, code: byte, data: seq<byte>): seq<byte> {
    var length := (1 + |data|) % 0x1_0000;
    [transaction / 0x100, transaction % 0x100, 0, 0, length / 0x100, length % 0x100, unit] + [code] + data
  }

  class Client {
    const unitId: byte
    var transactionId: uint16

    constructor (unitId: byte)
      ensures this.unitId == unitId && transactionId == 0
    {
      this.unitId := unitId;
      transactionId := 0;
    }

    method BuildRtuFrame(code: byte, data: seq<byte>) returns (frame: seq<byte>)
      ensures frame == RtuFrame(unitId, code, data)
    {
      frame := [unitId];
      frame := frame + [code];
      frame := frame + data;
      assert frame == [unitId, code] + data;
      var crc := Crc16(frame);
      frame := frame + ChecksumBytes(crc);
    }

    /** The transaction identifier is a uint16_t and wraps. */
    method BuildTcpFrame(code: byte, data: seq<byte>) returns (frame: seq<byte>)
      modifies this
      ensures transactionId == (old(transactionId) + 1) % 0x1_0000
      ensures frame == TcpFrame(transactionId, unitId, code, data)
    {
      var length := (1 + |data|) % 0x1_0000;
      transactionId := if transactionId == 0xFFFF then 0 else transactionId + 1;
      var header: seq<byte> :=
        [transactionId / 0x100, transactionId % 0x100, 0, 0, length / 0x100, length % 0x100, unitId];
      frame := header + [code];
      frame := frame + data;
      assert frame == header + [code] + data;
    }
  }

  /** What the RTU receiver makes of the bytes it has read. */
  function ReceiveRtu(temp: seq<byte>): Option<seq<byte>> {
    if |temp| < 5 then None
    else
      var n := |temp|;
      if temp[n - 2] + 0x100 * temp[n - 1] as int != Crc(CRC_START, temp[..n - 2]) then None
      else Some(temp[..n - 2])
  }

  method CheckRtu(temp: seq<byte>) returns (response: Option<seq<byte>>)
    ensures response == ReceiveRtu(temp)
  {
    var n := |temp|;
    if n < 5 {
      return None;
    }
    var received := temp[n - 2] + 0x100 * temp[n - 1] as int;
    var computed := Crc16(temp[..n - 2]);
    if received != computed {
      return None;
    }
    response := Some(temp[..n - 2]);
  }

  /**
   What the TCP receiver makes of a stream: 7 header bytes, then as many as the header announces. To
   receive no bytes at all counts as a closed connection.
   */
  function ReceiveTcp(stream: seq<byte>): Option<seq<byte>> {
    if |stream| < 7 then None
    else
      var length := 0x100 * stream[4] as int + stream[5] as int;
      if length == 0 || |stream| < 7 + length then None else Some(stream[7..7 + length])
  }

  // ----- what the receive check accepts -----

  /** The bits in which two frames differ. */
  ghost function Difference(f: seq<byte>, g: seq<byte>): (e: seq<bool>)
    requires |f| == |g|
    ensures |e| == 8 * |f|
  {
    Xor(Flat(f), Flat(g))
  }

  lemma ChecksumLeavesZero(body: seq<byte>, lo: byte, hi: byte)
    ensures lo + 0x100 * hi as int == Crc(CRC_START, body) <==>
      Serial(BitsOfWord(CRC_START), Flat(body + [lo, hi])) == Zeros(16)
  {
    var crc := Crc(CRC_START, body);
    FlatConcat(body, [lo, hi]);
    SerialConcat(BitsOfWord(CRC_START), Flat(body), Flat([lo, hi]));
    WordOfCrc(CRC_START, body);
    ChecksumBits(lo, hi);
    Residue(BitsOfWord(crc), BitsOfWord(lo + 0x100 * hi as int));
    WordsDetermine(lo + 0x100 * hi as int, crc);
  }

  lemma LastTwo(f: seq<byte>)
    requires |f| >= 2
    ensures f == f[..|f| - 2] + [f[|f| - 2], f[|f| - 1]]
  {
  }

  /** A frame passes exactly when the register reads zero after all of it, checksum included. */
  lemma AcceptedIffResidueZero(f: seq<byte>)
    ensures ReceiveRtu(f).Some? <==>
      |f| >= 5 && Serial(BitsOfWord(CRC_START), Flat(f)) == Zeros(16)
  {
    if |f| >= 5 {
      var n := |f|;
      ChecksumLeavesZero(f[..n - 2], f[n - 2], f[n - 1]);
      LastTwo(f);
    }
  }

  lemma ChecksumBits(lo: byte, hi: byte)
    ensures Flat([lo, hi]) == BitsOfWord(lo + 0x100 * hi as int)
  {
    Powers();
    ByteFits(lo);
    BitsOfParts(lo, hi, 8, 8);
    assert [lo, hi][1..] == [hi];
    assert Flat([hi]) == ByteBits(hi) + Flat([]);
  }

  lemma WordsDetermine(a: uint16, b: uint16)
    ensures BitsOfWord(a) == BitsOfWord(b) <==> a == b
  {
    Powers();
    FitsBelowPower(a, 16);
    FitsBelowPower(b, 16);
    if BitsOfWord(a) == BitsOfWord(b) {
      BitsDetermine(a, b, 16);
    }
  }

  /** A built frame comes back without its checksum, except that one without data is too short to pass. */
  lemma BuiltFrameIsReceived(unit: byte, code: byte, data: seq<byte>)
    ensures ReceiveRtu(RtuFrame(unit, code, data)) == if data == [] then None else Some([unit, code] + data)
  {
    var frame := RtuFrame(unit, code, data);
    assert frame[..|frame| - 2] == [unit, code] + data;
  }

  /** The errors that get through are exactly the bit patterns that leave a zero register at zero. */
  lemma UndetectedErrors(f: seq<byte>, g: seq<byte>)
    requires ReceiveRtu(f).Some? && |g| == |f|
    ensures ReceiveRtu(g).Some? <==> Serial(Zeros(16), Difference(f, g)) == Zeros(16)
  {
    AcceptedIffResidueZero(f);
    AcceptedIffResidueZero(g);
    SameRegister(BitsOfWord(CRC_START), Flat(f), Flat(g));
  }

  /** Every error burst of at most 16 bits on the line is rejected, whatever bytes it touches. */
  lemma BurstIsRejected(f: seq<byte>, g: seq<byte>)
    requires ReceiveRtu(f).Some? && |g| == |f| && g != f
    requires Burst16(Difference(f, g))
    ensures ReceiveRtu(g) == None
  {
    DifferenceNonZero(f, g);
    BurstChangesRegister(Difference(f, g));
    UndetectedErrors(f, g);
  }

  lemma DifferenceNonZero(f: seq<byte>, g: seq<byte>)
    requires |g| == |f| && g != f
    ensures exists i :: 0 <= i < |Difference(f, g)| && Difference(f, g)[i]
  {
    var k :| 0 <= k < |f| && f[k] != g[k];
    if ByteBits(f[k]) == ByteBits(g[k]) {
      ByteBitsDetermine(f[k], g[k]);
    }
    var j :| 0 <= j < 8 && ByteBits(f[k])[j] != ByteBits(g[k])[j];
    FlatBit(f, k, j);
    FlatBit(g, k, j);
    assert Difference(f, g)[8 * k + j];
  }

  /** Corrupting two adjacent bytes in any way is such a burst. */
  lemma TwoAdjacentBytesAreRejected(f: seq<byte>, g: seq<byte>, k: nat)
    requires ReceiveRtu(f).Some? && |g| == |f| && g != f && k < |f|
    requires forall i :: 0 <= i < |f| && i != k && i != k + 1 ==> g[i] == f[i]
    ensures ReceiveRtu(g) == None
  {
    var e := Difference(f, g);
    forall i | 0 <= i < |e| && e[i] ensures 8 * k <= i < 8 * k + 16 {
      EqualBytesEqualBits(f, g, i);
    }
    assert OnesWithin(e, 8 * k);
    BurstIsRejected(f, g);
  }

  lemma EqualBytesEqualBits(f: seq<byte>, g: seq<byte>, i: nat)
    requires |g| == |f| && i < 8 * |f|
    ensures f[i / 8] == g[i / 8] ==> !Difference(f, g)[i]
  {
    FlatBit(f, i / 8, i % 8);
    FlatBit(g, i / 8, i % 8);
  }

  /** Flipping an odd number of bits anywhere is rejected. */
  lemma OddFlipsAreRejected(f: seq<byte>, g: seq<byte>)
    requires ReceiveRtu(f).Some? && |g| == |f|
    requires CountOnes(Difference(f, g)) % 2 == 1
    ensures ReceiveRtu(g) == None
  {
    OddErrorChangesRegister(Difference(f, g));
    UndetectedErrors(f, g);
  }

  /** Two flipped bits get through exactly when a multiple of 32767 bits lies between them. */
  lemma TwoFlipsAreRejectedIff(f: seq<byte>, g: seq<byte>, i: nat, j: nat)
    requires ReceiveRtu(f).Some? && |g| == |f|
    requires OnesAt(Difference(f, g), i, j)
    ensures ReceiveRtu(g) == None <==> (j - i) % ORDER != 0
  {
    hide ReceiveRtu, Difference;
    UndetectedErrors(f, g);
    TwoBitsCancelIff(Difference(f, g), i, j);
  }

  /** Up to 4095 bytes, any one, two or three flipped bits are rejected; RTU frames have at most 256. */
  lemma ThreeFlipsAreRejected(f: seq<byte>, g: seq<byte>)
    requires ReceiveRtu(f).Some? && |g| == |f| && g != f && |f| <= 4095
    requires CountOnes(Difference(f, g)) <= 3
    ensures ReceiveRtu(g) == None
  {
    hide ReceiveRtu, Difference;
    var e := Difference(f, g);
    if CountOnes(e) % 2 == 1 {
      OddFlipsAreRejected(f, g);
    } else {
      DifferenceNonZero(f, g);
      var k :| 0 <= k < |e| && e[k];
      SomeOnes(e, k);
      var i, j := OnlyTwo(e);
      TwoFlipsAreRejectedIff(f, g, i, j);
    }
  }

  // ----- the start value -----

  /** The register starts with sixteen ones. */
  lemma StartIsOnes()
    ensures BitsOfWord(CRC_START) == Ones()
  {
    Powers();
    BitsOfOnes(CRC_START, 16);
  }

  lemma {:induction false} BitsOfOnes(c: nat, n: nat)
    requires c + 1 == Power(n)
    ensures BitsOf(c, n) == seq(n, _ => true)
    decreases n
  {
    if n > 0 {
      BitsOfOnes(c / 2, n - 1);
    }
  }

  function ZeroBytes(n: nat): (z: seq<byte>)
    ensures |z| == n && forall i :: 0 <= i < n ==> z[i] == 0
  {
    seq(n, _ => 0)
  }

  lemma RegisterOverZeros(n: nat)
    ensures Serial(BitsOfWord(CRC_START), Flat(ZeroBytes(n))) == Steps(Ones(), 8 * n)
  {
    StartIsOnes();
    FlatOfZeros(ZeroBytes(n));
    SerialOfZeros(Ones(), 8 * n);
  }

  /** A line that is stuck at zero is never taken for a frame: steps keep the start value away from zero. */
  lemma ZerosAreRefused(n: nat)
    ensures ReceiveRtu(ZeroBytes(n)) == None
  {
    hide Steps, Serial, ReceiveRtu;
    AcceptedIffResidueZero(ZeroBytes(n));
    RegisterOverZeros(n);
    StepsKeepNonZero(Ones(), 8 * n);
    assert Ones()[0];
  }

  /** Zero bytes in front of an accepted frame are noticed, unless their number is a multiple of 32767. */
  lemma ZerosInFrontIff(f: seq<byte>, n: nat)
    requires ReceiveRtu(f).Some?
    ensures ReceiveRtu(ZeroBytes(n) + f).Some? <==> n % ORDER == 0
  {
    hide Steps, Serial, ReceiveRtu, Flat;
    var start, later := Ones(), Steps(Ones(), 8 * n);
    AcceptedIffResidueZero(f);
    AcceptedIffResidueZero(ZeroBytes(n) + f);
    StartIsOnes();
    RegisterOverZeros(n);
    FlatConcat(ZeroBytes(n), f);
    SerialConcat(start, Flat(ZeroBytes(n)), Flat(f));
    SerialInjective(start, later, Flat(f));
    OnesComeBackIff(8 * n);
    EightIsInvertible(n);
  }

  /** Two registers that read the same message stay different. */
  lemma SerialInjective(x: Word, y: Word, m: seq<bool>)
    ensures Serial(x, m) == Serial(y, m) <==> x == y
  {
    hide Serial, Steps;
    SerialLinear(x, y, m, m);
    assert Xor(m, m) == Zeros(|m|);
    SerialOfZeros(Xor(x, y), |m|);
    StepsKeepNonZero(Xor(x, y), |m|);
    XorZero(x, y);
    XorZero(Serial(x, m), Serial(y, m));
  }

  lemma EightIsInvertible(n: nat)
    ensures (8 * n) % ORDER == 0 <==> n % ORDER == 0
  {
    if (8 * n) % ORDER == 0 {
      var q := (8 * n) / ORDER;
      MultipleOfOrder(n, 4096 * q - n);
    }
    if n % ORDER == 0 {
      var q := n / ORDER;
      MultipleOfOrder(8 * n, 8 * q);
    }
  }

  lemma MultipleOfOrder(x: nat, k: int)
    requires x == ORDER * k
    ensures x % ORDER == 0
  {
  }

  /** The length field of a TCP frame is a uint16_t that counts function and data: it must fit. */
  lemma TcpFrameIsReceived(transaction: uint16, unit: byte, code: byte, data: seq<byte>)
    ensures var r := ReceiveTcp(TcpFrame(transaction, unit, code, data));
      && r == (if |data| % 0x1_0000 == 0xFFFF then None else Some(([code] + data)[..(1 + |data|) % 0x1_0000]))
      && (r == Some([code] + data) <==> |data| < 0xFFFF)
  {
    var stream, pdu, length := TcpFrame(transaction, unit, code, data), [code] + data, (1 + |data|) % 0x1_0000;
    assert 0x100 * (length / 0x100) + length % 0x100 == length;
    assert stream[7..] == pdu;
    EndsInOnes(|data|);
    assert stream[7..7 + length] == pdu[..length];
    assert |data| < 0xFFFF ==> pdu[..length] == pdu;
    assert |data| >= 0xFFFF ==> |pdu[..length]| < |pdu|;
  }

  /** The header of a built frame, field by field: 16-bit numbers with the high byte first. */
  lemma TcpHeaderReadsBack(transaction: uint16, unit: byte, code: byte, data: seq<byte>)
    ensures var f := TcpFrame(transaction, unit, code, data);
      && |f| == 8 + |data| && f[8..] == data && f[7] == code && f[6] == unit
      && 0x100 * f[0] as int + f[1] == transaction && f[2] == f[3] == 0
      && 0x100 * f[4] as int + f[5] == (1 + |data|) % 0x1_0000
  {
    var length := (1 + |data|) % 0x1_0000;
    assert 0x100 * (length / 0x100) + length % 0x100 == length;
    assert 0x100 * (transaction / 0x100) + transaction % 0x100 == transaction;
  }

  lemma EndsInOnes(n: nat)
    ensures n % 0x1_0000 == 0xFFFF <==> (1 + n) % 0x1_0000 == 0
  {
  }

  /** The receiver takes what the header announces, at least one byte, and leaves what follows; anything shorter is refused. */
  lemma TcpTakesAnnounced(transaction: uint16, protocol: uint16, unit: byte, pdu: seq<byte>, rest: seq<byte>)
    requires |pdu| < 0x1_0000
    ensures var header: seq<byte> := [transaction / 0x100, transaction % 0x100, protocol / 0x100, protocol % 0x100,
                                      |pdu| / 0x100, |pdu| % 0x100, unit];
      && ReceiveTcp(header + pdu + rest) == (if pdu == [] then None else Some(pdu))
      && forall n :: 0 <= n < 7 + |pdu| ==> ReceiveTcp((header + pdu)[..n]) == None
  {
    var header: seq<byte> := [transaction / 0x100, transaction % 0x100, protocol / 0x100, protocol % 0x100,
                              |pdu| / 0x100, |pdu| % 0x100, unit];
    var stream := header + pdu + rest;
    assert 0x100 * (|pdu| / 0x100) + |pdu| % 0x100 == |pdu|;
    assert stream[4] == header[4] && stream[5] == header[5];
    assert stream[7..7 + |pdu|] == pdu;
    forall n | 0 <= n < 7 + |pdu| ensures ReceiveTcp((header + pdu)[..n]) == None {
      if n >= 7 {
        assert (header + pdu)[..n][4] == header[4] && (header + pdu)[..n][5] == header[5];
      }
    }
  }

  // ----- coils -----

  /** `b | 1 << k`. */
  function SetBit(b: byte, k: nat): (r: byte)
    requires k < 8
    ensures ByteBits(r) == ByteBits(b)[k := true]
  {
    ByteFits(b);
    OrBitFits(b, k, 8);
    Powers();
    FitsBelowPower(OrBit(b, k), 8);
    BitsOfOrBit(b, k, 8);
    OrBit(b, k)
  }

  function OrBit(b: nat, k: nat): nat {
    if k == 0 then b - b % 2 + 1 else b % 2 + 2 * OrBit(b / 2, k - 1)
  }

  lemma {:induction false} OrBitFits(b: nat, k: nat, n: nat)
    requires k < n && Fits(b, n)
    ensures Fits(OrBit(b, k), n)
    decreases n
  {
    if k > 0 {
      OrBitFits(b / 2, k - 1, n - 1);
    } else {
      assert OrBit(b, 0) / 2 == b / 2;
    }
  }

  lemma {:induction false} BitsOfOrBit(b: nat, k: nat, n: nat)
    requires k < n
    ensures BitsOf(OrBit(b, k), n) == BitsOf(b, n)[k := true]
    decreases n
  {
    if k > 0 {
      BitsOfOrBit(b / 2, k - 1, n - 1);
    } else {
      assert OrBit(b, 0) / 2 == b / 2;
    }
  }

  /** A coil is on exactly when its byte is not zero. */
  ghost function Coils(values: seq<byte>): seq<bool> {
    seq(|values|, i requires 0 <= i < |values| => values[i] != 0)
  }

  lemma SetCoil(m: seq<byte>, i: nat)
    requires i < 8 * |m|
    ensures Flat(m[i / 8 := SetBit(m[i / 8], i % 8)]) == Flat(m)[i := true]
  {
    var m' := m[i / 8 := SetBit(m[i / 8], i % 8)];
    forall j | 0 <= j < 8 * |m| ensures Flat(m')[j] == Flat(m)[i := true][j] {
      FlatBit(m, j / 8, j % 8);
      FlatBit(m', j / 8, j % 8);
    }
  }

  lemma {:induction false} FlatOfZeros(m: seq<byte>)
    requires forall i :: 0 <= i < |m| ==> m[i] == 0
    ensures Flat(m) == Zeros(8 * |m|)
  {
    if m != [] {
      BitsOfZero(8);
      FlatOfZeros(m[1..]);
    }
  }

  /** The data part of a write-multiple-coils request: five header bytes, then the packed coils. */
  method PackCoils(address: uint16, values: seq<byte>) returns (data: array<byte>)
    ensures data.Length == 5 + (|values| + 7) / 8
    ensures data[..5] == [address / 0x100, address % 0x100, |values| / 0x100 % 0x100, |values| % 0x100, (|values| + 7) / 8 % 0x100]
    ensures Flat(data[5..]) == Coils(values) + Zeros(8 * ((|values| + 7) / 8) - |values|)
  {
    var bitCount := |values|;
    var byteCount := (bitCount + 7) / 8;
    data := new byte[5 + byteCount](_ => 0);
    data[0] := address / 0x100;
    data[1] := address % 0x100;
    data[2] := bitCount / 0x100 % 0x100;
    data[3] := bitCount % 0x100;
    data[4] := byteCount % 0x100;
    PackBits(data, values);
  }

  method PackBits(data: array<byte>, values: seq<byte>)
    requires data.Length == 5 + (|values| + 7) / 8
    requires forall i :: 5 <= i < data.Length ==> data[i] == 0
    modifies data
    ensures data[..5] == old(data[..5])
    ensures Flat(data[5..]) == Coils(values) + Zeros(8 * ((|values| + 7) / 8) - |values|)
  {
    hide Flat, Coils;
    ghost var n := 8 * ((|values| + 7) / 8);
    FlatOfZeros(data[5..]);
    NoCoils(values, n);
    for i := 0 to |values|
      invariant data[..5] == old(data[..5])
      invariant Flat(data[5..]) == Coils(values[..i]) + Zeros(n - i)
    {
      CoilsStep(values, i, n);
      if values[i] != 0 {
        SetCoilBit(data, i);
      }
    }
    assert values[..|values|] == values;
  }

  method SetCoilBit(data: array<byte>, i: nat)
    requires 5 + i / 8 < data.Length
    modifies data
    ensures data[..5] == old(data[..5])
    ensures Flat(data[5..]) == old(Flat(data[5..]))[i := true]
  {
    ghost var packed := data[5..];
    SetCoil(packed, i);
    data[5 + i / 8] := SetBit(data[5 + i / 8], i % 8);
    assert data[5..] == packed[i / 8 := SetBit(packed[i / 8], i % 8)];
  }

  lemma NoCoils(values: seq<byte>, n: nat)
    ensures Coils(values[..0]) + Zeros(n) == Zeros(n)
  {
  }

  lemma CoilsStep(values: seq<byte>, i: nat, n: nat)
    requires i < |values| <= n
    ensures var before := Coils(values[..i]) + Zeros(n - i);
      Coils(values[..i + 1]) + Zeros(n - i - 1) == if values[i] != 0 then before[i := true] else before
  {
  }

  /** Reading the packed bytes back bit by bit gives the coils, for any count. */
  lemma PackedCoilsUnpack(packed: seq<byte>, values: seq<byte>)
    requires |packed| == (|values| + 7) / 8
    requires Flat(packed) == Coils(values) + Zeros(8 * |packed| - |values|)
    ensures forall i :: 0 <= i < |values| ==> (ByteBits(packed[i / 8])[i % 8] <==> values[i] != 0)
    ensures forall i :: |values| <= i < 8 * |packed| ==> !ByteBits(packed[i / 8])[i % 8]
  {
    forall i | 0 <= i < 8 * |packed| ensures ByteBits(packed[i / 8])[i % 8] == (i < |values| && values[i] != 0) {
      FlatBit(packed, i / 8, i % 8);
      assert Flat(packed)[i] == (if i < |values| then Coils(values)[i] else false);
    }
  }
}
