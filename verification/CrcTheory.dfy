/**
 The Modbus checksum on bit strings.

 A register is its 16 bits, lowest first, which is also the order in which a serial line
 sends them. A message is one flat bit string, so errors need not respect byte borders.
 */
module CrcTheory {

  type Word = w: seq<bool> | |w| == 16 witness seq(16, _ => false)

  function Zeros(n: nat): (z: seq<bool>)
    ensures |z| == n && forall i :: 0 <= i < n ==> !z[i]
  {
    seq(n, _ => false)
  }

  function Xor(a: seq<bool>, b: seq<bool>): (r: seq<bool>)
    requires |a| == |b|
    ensures |r| == |a| && forall i :: 0 <= i < |a| ==> r[i] == (a[i] != b[i])
  {
    seq(|a|, i requires 0 <= i < |a| => a[i] != b[i])
  }

  /** 0xA001: bits 0, 13 and 15. */
  function Polynomial(): (p: Word)
    ensures forall i :: 0 <= i < 16 ==> p[i] == (i == 0 || i == 13 || i == 15)
  {
    seq(16, i => i == 0 || i == 13 || i == 15)
  }

  function ShiftRight(w: Word): Word {
    w[1..] + [false]
  }

  function Step(w: Word): Word {
    if w[0] then Xor(ShiftRight(w), Polynomial()) else ShiftRight(w)
  }

  function Steps(w: Word, n: nat): Word
    decreases n, w
  {
    if n == 0 then w else Steps(Step(w), n - 1)
  }

  /** The register after the bits of m have passed through it one by one. */
  function Serial(w: Word, m: seq<bool>): Word
    decreases |m|
  {
    if m == [] then w else Serial(Step(w[0 := w[0] != m[0]]), m[1..])
  }

  // ----- one step -----

  lemma StepLinear(x: Word, y: Word)
    ensures Step(Xor(x, y)) == Xor(Step(x), Step(y))
  {
    var l, r := Step(Xor(x, y)), Xor(Step(x), Step(y));
    forall i | 0 <= i < 16 ensures l[i] == r[i] {
    }
  }

  /** The step can be undone, so only the zero register becomes zero. */
  lemma StepKeepsNonZero(w: Word)
    ensures Step(w) == Zeros(16) <==> w == Zeros(16)
  {
    if Step(w) == Zeros(16) {
      assert !Step(w)[15];
      forall i | 0 <= i < 16 ensures !w[i] {
        assert i > 0 ==> Step(w)[i - 1] == w[i];
      }
    }
  }

  lemma {:induction false} StepsKeepNonZero(w: Word, n: nat)
    ensures Steps(w, n) == Zeros(16) <==> w == Zeros(16)
    decreases n
  {
    if n > 0 {
      StepKeepsNonZero(w);
      StepsKeepNonZero(Step(w), n - 1);
    }
  }

  /** A bit string laid over a register, lowest bit first. */
  function Padded(m: seq<bool>): Word
    requires |m| <= 16
  {
    m + Zeros(16 - |m|)
  }

  lemma StepOverFirstBit(w: Word, m: seq<bool>)
    requires 0 < |m| <= 16
    ensures Step(Xor(w, Padded(m))) == Xor(Step(w[0 := w[0] != m[0]]), Padded(m[1..]))
  {
    var first := w[0 := w[0] != m[0]];
    var rest: Word := [false] + Padded(m[1..])[..15];
    assert Xor(w, Padded(m)) == Xor(first, rest);
    StepLinear(first, rest);
    assert Step(rest) == Padded(m[1..]);
  }

  /** Adding a whole byte and then shifting is the same as adding its bits when they reach the low end. */
  lemma {:induction false} SerialIsSteps(w: Word, m: seq<bool>)
    requires |m| <= 16
    ensures Serial(w, m) == Steps(Xor(w, Padded(m)), |m|)
    decreases |m|
  {
    if m == [] {
      assert Xor(w, Padded(m)) == w;
    } else {
      StepOverFirstBit(w, m);
      SerialIsSteps(Step(w[0 := w[0] != m[0]]), m[1..]);
    }
  }

  // ----- whole messages -----

  lemma {:induction false} SerialConcat(w: Word, a: seq<bool>, b: seq<bool>)
    ensures Serial(w, a + b) == Serial(Serial(w, a), b)
    decreases |a|
  {
    if a == [] {
      assert a + b == b;
    } else {
      assert (a + b)[1..] == a[1..] + b;
      SerialConcat(Step(w[0 := w[0] != a[0]]), a[1..], b);
    }
  }

  /** The checksum is linear in the register and the message together. */
  lemma {:induction false} SerialLinear(x: Word, y: Word, a: seq<bool>, b: seq<bool>)
    requires |a| == |b|
    ensures Serial(Xor(x, y), Xor(a, b)) == Xor(Serial(x, a), Serial(y, b))
    decreases |a|
  {
    if a != [] {
      var x', y' := x[0 := x[0] != a[0]], y[0 := y[0] != b[0]];
      assert Xor(x, y)[0 := Xor(x, y)[0] != Xor(a, b)[0]] == Xor(x', y');
      StepLinear(x', y');
      assert Xor(a, b)[1..] == Xor(a[1..], b[1..]);
      SerialLinear(Step(x'), Step(y'), a[1..], b[1..]);
    }
  }

  lemma {:induction false} SerialOfZeros(w: Word, n: nat)
    ensures Serial(w, Zeros(n)) == Steps(w, n)
    decreases n
  {
    if n > 0 {
      assert Zeros(n)[1..] == Zeros(n - 1);
      assert w[0 := w[0] != false] == w;
      SerialOfZeros(Step(w), n - 1);
    }
  }

  /** A message followed by its own register leaves zero behind, and nothing else of that length does. */
  lemma Residue(w: Word, tail: Word)
    ensures Serial(w, tail) == Zeros(16) <==> tail == w
  {
    SerialIsSteps(w, tail);
    assert Padded(tail) == tail;
    StepsKeepNonZero(Xor(w, tail), 16);
    if Xor(w, tail) == Zeros(16) {
      forall i | 0 <= i < 16 ensures w[i] == tail[i] {
        assert !Xor(w, tail)[i];
      }
    }
  }

  /** Two messages leave the same register exactly when their difference leaves zero in a zero register. */
  lemma SameRegister(w: Word, a: seq<bool>, b: seq<bool>)
    requires |a| == |b|
    ensures Serial(w, a) == Serial(w, b) <==> Serial(Zeros(16), Xor(a, b)) == Zeros(16)
  {
    assert Xor(w, w) == Zeros(16);
    SerialLinear(w, w, a, b);
    var r, s := Serial(w, a), Serial(w, b);
    if Xor(r, s) == Zeros(16) {
      forall i | 0 <= i < 16 ensures r[i] == s[i] {
        assert !Xor(r, s)[i];
      }
    }
  }

  // ----- burst errors -----

  /** All ones of e lie in 16 consecutive places. */
  ghost predicate Burst16(e: seq<bool>) {
    exists p: nat :: p <= |e| && OnesWithin(e, p)
  }

  ghost predicate OnesWithin(e: seq<bool>, p: nat) {
    forall i :: 0 <= i < |e| && e[i] ==> p <= i < p + 16
  }

  /** Leading zeros leave the zero register alone; after the burst the register only shifts. */
  lemma SerialOfBurst(p: nat, burst: seq<bool>, q: nat)
    requires |burst| <= 16
    ensures Serial(Zeros(16), Zeros(p) + (burst + Zeros(q))) == Steps(Steps(Padded(burst), |burst|), q)
  {
    SerialConcat(Zeros(16), Zeros(p), burst + Zeros(q));
    SerialOfZeros(Zeros(16), p);
    StepsKeepNonZero(Zeros(16), p);
    SerialConcat(Zeros(16), burst, Zeros(q));
    SerialIsSteps(Zeros(16), burst);
    assert Xor(Zeros(16), Padded(burst)) == Padded(burst);
    SerialOfZeros(Steps(Padded(burst), |burst|), q);
  }

  lemma BurstSplit(e: seq<bool>, p: nat, n: nat)
    requires p + n <= |e| && OnesWithin(e, p) && (n == 16 || p + n == |e|)
    ensures e == Zeros(p) + (e[p..p + n] + Zeros(|e| - p - n))
  {
  }

  lemma PaddedNonZero(burst: seq<bool>, i: nat)
    requires i < |burst| <= 16 && burst[i]
    ensures Padded(burst) != Zeros(16)
  {
    assert Padded(burst)[i];
  }

  lemma BurstLeavesNonZero(e: seq<bool>, p: nat, burst: seq<bool>, q: nat)
    requires |burst| <= 16 && Padded(burst) != Zeros(16)
    requires e == Zeros(p) + (burst + Zeros(q))
    ensures Serial(Zeros(16), e) != Zeros(16)
  {
    SerialOfBurst(p, burst, q);
    StepsKeepNonZero(Padded(burst), |burst|);
    StepsKeepNonZero(Steps(Padded(burst), |burst|), q);
  }

  lemma BurstInWindow(e: seq<bool>, p: nat, n: nat, i: nat)
    requires p + n <= |e| && OnesWithin(e, p) && n <= 16 && (n == 16 || p + n == |e|)
    requires i < |e| && e[i]
    ensures Serial(Zeros(16), e) != Zeros(16)
  {
    assert p <= i < p + n;
    hide Serial, Padded, OnesWithin;
    var burst := e[p..p + n];
    assert burst[i - p] == e[i];
    PaddedNonZero(burst, i - p);
    BurstSplit(e, p, n);
    BurstLeavesNonZero(e, p, burst, |e| - p - n);
  }

  lemma BurstChangesRegister(e: seq<bool>)
    requires Burst16(e) && exists i :: 0 <= i < |e| && e[i]
    ensures Serial(Zeros(16), e) != Zeros(16)
  {
    var p: nat :| p <= |e| && OnesWithin(e, p);
    var i :| 0 <= i < |e| && e[i];
    BurstInWindow(e, p, if p + 16 <= |e| then 16 else |e| - p, i);
  }

  // ----- parity -----

  function CountOnes(s: seq<bool>): nat {
    if s == [] then 0 else (if s[0] then 1 else 0) + CountOnes(s[1..])
  }

  ghost predicate Odd(s: seq<bool>) {
    CountOnes(s) % 2 == 1
  }

  lemma {:induction false} CountOnesConcat(a: seq<bool>, b: seq<bool>)
    ensures CountOnes(a + b) == CountOnes(a) + CountOnes(b)
  {
    if a == [] {
      assert a + b == b;
    } else {
      assert (a + b)[1..] == a[1..] + b;
      CountOnesConcat(a[1..], b);
    }
  }

  lemma {:induction false} OddOfXor(a: seq<bool>, b: seq<bool>)
    requires |a| == |b|
    ensures Odd(Xor(a, b)) <==> Odd(a) != Odd(b)
  {
    if a != [] {
      assert Xor(a, b)[1..] == Xor(a[1..], b[1..]);
      OddOfXor(a[1..], b[1..]);
    }
  }

  function One(b: bool): nat {
    if b then 1 else 0
  }

  lemma {:induction false} CountOfOnly(s: seq<bool>, k: nat)
    requires k < |s| && forall i :: 0 <= i < |s| ==> s[i] == (i == k)
    ensures CountOnes(s) == 1
  {
    if k == 0 {
      assert s[1..] == Zeros(|s| - 1);
      CountZeros(|s| - 1);
    } else {
      CountOfOnly(s[1..], k - 1);
    }
  }

  lemma PolynomialIsOdd()
    ensures Odd(Polynomial())
  {
    var p := Polynomial();
    CountOfOnly(p[..8], 0);
    CountOfOnly(p[8..14], 5);
    CountOfOnly(p[14..], 1);
    CountOnesConcat(p[..8], p[8..14]);
    CountOnesConcat(p[..14], p[14..]);
    assert p[..14] == p[..8] + p[8..14];
    assert p == p[..14] + p[14..];
  }

  lemma {:induction false} ShiftParity(w: Word)
    ensures CountOnes(w) == One(w[0]) + CountOnes(ShiftRight(w))
  {
    CountOnesConcat(w[1..], Zeros(1));
    CountZeros(1);
    assert ShiftRight(w) == w[1..] + Zeros(1);
  }

  lemma StepKeepsParity(w: Word)
    ensures Odd(Step(w)) <==> Odd(w)
  {
    ShiftParity(w);
    PolynomialIsOdd();
    OddOfXor(ShiftRight(w), Polynomial());
  }

  lemma {:induction false} CountZeros(n: nat)
    ensures CountOnes(Zeros(n)) == 0
  {
    if n > 0 {
      assert Zeros(n)[1..] == Zeros(n - 1);
      CountZeros(n - 1);
    }
  }

  /** The polynomial has an even number of terms, so the register carries the parity of what it has read. */
  lemma {:induction false} SerialParity(w: Word, m: seq<bool>)
    ensures Odd(Serial(w, m)) <==> Odd(w) != Odd(m)
    decreases |m|
  {
    if m != [] {
      var w' := w[0 := w[0] != m[0]];
      assert w'[1..] == w[1..];
      StepKeepsParity(w');
      SerialParity(Step(w'), m[1..]);
    }
  }

  lemma OddErrorChangesRegister(e: seq<bool>)
    requires Odd(e)
    ensures Serial(Zeros(16), e) != Zeros(16)
  {
    CountZeros(16);
    SerialParity(Zeros(16), e);
  }
}
