/**
 The unsigned 16-bit register of comm/src/modbus.c and the bits it holds.

 C's `x & 1`, `x >> 1`, `x >> 8`, `x & 0xFF` and `x | y << 8` on unsigned values are written
 `x % 2`, `x / 2`, `x / 256`, `x % 256` and `x + 256 * y`; `x ^ y` is BitXor.
 */
module CrcRegister {
  import opened Bytes
  import opened CrcTheory

  type uint16 = c: int | 0 <= c < 0x1_0000

  /** Exclusive or of unsigned values. */
  function BitXor(a: nat, b: nat): nat
    decreases a + b
  {
    if a == 0 then b
    else if b == 0 then a
    else (if a % 2 == b % 2 then 0 else 1) + 2 * BitXor(a / 2, b / 2)
  }

  /** The lowest n bits of c, lowest first. */
  ghost function BitsOf(c: nat, n: nat): (s: seq<bool>)
    ensures |s| == n
    decreases n, c
  {
    if n == 0 then [] else [c % 2 == 1] + BitsOf(c / 2, n - 1)
  }

  ghost function BitsOfWord(c: nat): Word {
    BitsOf(c, 16)
  }

  /** c needs no more than n bits. */
  ghost predicate Fits(c: nat, n: nat)
    decreases n, c
  {
    if n == 0 then c == 0 else Fits(c / 2, n - 1)
  }

  lemma {:induction false} XorFits(a: nat, b: nat, n: nat)
    requires Fits(a, n) && Fits(b, n)
    ensures Fits(BitXor(a, b), n)
    decreases n
  {
    if n > 0 && a > 0 && b > 0 {
      XorFits(a / 2, b / 2, n - 1);
      assert BitXor(a, b) / 2 == BitXor(a / 2, b / 2);
    }
  }

  lemma {:induction false} BitsOfZero(n: nat)
    ensures BitsOf(0, n) == Zeros(n)
  {
    if n > 0 {
      BitsOfZero(n - 1);
    }
  }

  lemma {:induction false} BitsOfXor(a: nat, b: nat, n: nat)
    ensures BitsOf(BitXor(a, b), n) == Xor(BitsOf(a, n), BitsOf(b, n))
    decreases n
  {
    if a == 0 || b == 0 {
      BitsOfZero(n);
    } else if n > 0 {
      BitsOfXor(a / 2, b / 2, n - 1);
      assert BitXor(a, b) / 2 == BitXor(a / 2, b / 2);
    }
  }

  lemma {:induction false} BitsOfSmall(c: nat, m: nat, n: nat)
    requires m <= n && Fits(c, m)
    ensures BitsOf(c, n) == BitsOf(c, m) + Zeros(n - m)
    decreases n
  {
    if m > 0 {
      BitsOfSmall(c / 2, m - 1, n - 1);
    } else {
      BitsOfZero(n);
    }
  }

  lemma {:induction false} BitsDetermine(a: nat, b: nat, n: nat)
    requires Fits(a, n) && Fits(b, n) && BitsOf(a, n) == BitsOf(b, n)
    ensures a == b
    decreases n
  {
    if n > 0 {
      assert BitsOf(a, n)[0] == BitsOf(b, n)[0];
      assert BitsOf(a, n)[1..] == BitsOf(a / 2, n - 1) && BitsOf(b, n)[1..] == BitsOf(b / 2, n - 1);
      BitsDetermine(a / 2, b / 2, n - 1);
    }
  }

  lemma HalfOfParts(lo: nat, hi: nat, p: nat)
    ensures (lo + 2 * p * hi) % 2 == lo % 2 && (lo + 2 * p * hi) / 2 == lo / 2 + p * hi
  {
    var q := p * hi;
    assert 2 * p * hi == 2 * q;
  }

  /** The low and the high part of a value hold the first and the remaining bits. */
  lemma {:induction false} BitsOfParts(lo: nat, hi: nat, m: nat, n: nat)
    requires Fits(lo, m)
    ensures BitsOf(lo + Power(m) * hi, m + n) == BitsOf(lo, m) + BitsOf(hi, n)
    decreases m
  {
    if m > 0 {
      HalfOfParts(lo, hi, Power(m - 1));
      BitsOfParts(lo / 2, hi, m - 1, n);
    }
  }

  function Power(n: nat): nat {
    if n == 0 then 1 else 2 * Power(n - 1)
  }

  lemma {:induction false} FitsBelowPower(c: nat, n: nat)
    ensures Fits(c, n) <==> c < Power(n)
    decreases n
  {
    if n > 0 {
      FitsBelowPower(c / 2, n - 1);
    }
  }

  lemma Powers()
    ensures Power(8) == 0x100 && Power(13) == 0x2000 && Power(15) == 0x8000 && Power(16) == 0x1_0000
  {
    assert Power(4) == 16;
    assert Power(8) == 0x100;
    assert Power(12) == 0x1000;
  }

  // ----- the step -----

  function CrcBit(crc: nat): nat {
    if crc % 2 == 1 then BitXor(crc / 2, 0xA001) else crc / 2
  }

  lemma BitsOfShift(c: uint16)
    ensures BitsOfWord(c / 2) == ShiftRight(BitsOfWord(c))
  {
    Powers();
    FitsBelowPower(c / 2, 15);
    BitsOfSmall(c / 2, 15, 16);
  }

  lemma BitsOfPolynomial()
    ensures BitsOfWord(0xA001) == Polynomial()
  {
    hide BitsOf, Fits;
    Powers();
    FitsBelowPower(1, 13);
    FitsBelowPower(1, 1);
    BitsOfParts(1, 5, 13, 3);
    BitsOfSmall(1, 1, 13);
    FiveInBits(5);
    OneInBits(1);
  }

  lemma OneInBits(c: nat)
    requires c == 1
    ensures BitsOf(c, 1) == [true]
  {
    assert BitsOf(c / 2, 0) == [];
  }

  lemma FiveInBits(c: nat)
    requires c == 5
    ensures BitsOf(c, 3) == [true, false, true]
  {
    assert BitsOf(c / 2, 2) == [false] + BitsOf(c / 2 / 2, 1);
    assert BitsOf(c / 2 / 2, 1) == [true] + BitsOf(0, 0);
  }

  lemma BitsOfStep(c: uint16)
    ensures 0 <= CrcBit(c) < 0x1_0000
    ensures BitsOfWord(CrcBit(c)) == Step(BitsOfWord(c))
  {
    BitsOfShift(c);
    BitsOfPolynomial();
    BitsOfXor(c / 2, 0xA001, 16);
    Powers();
    FitsBelowPower(c / 2, 16);
    FitsBelowPower(0xA001, 16);
    XorFits(c / 2, 0xA001, 16);
    FitsBelowPower(BitXor(c / 2, 0xA001), 16);
  }
}
