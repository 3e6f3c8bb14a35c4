/** The Modbus RTU checksum: nmbs_crc_calc, the footer check, and the errors the check catches. */
module Crc {
  import opened Words
  import opened Bits

  const SEED: u16 := 0xFFFF
  const POLYNOMIAL: u16 := 0xA001

  /** One turn of the inner loop. */
  function Step(c: u16): u16 {
    XorWords(c / 2, POLYNOMIAL);
    if c % 2 == 1 then Xor(c / 2, POLYNOMIAL) else c / 2
  }

  /** n turns, the first one made first. */
  function Turns(c: u16, n: nat): u16
    decreases n
  {
    if n == 0 then c else Turns(Step(c), n - 1)
  }

  function Absorb(c: u16, b: byte): u16 {
    XorWords(c, b);
    Turns(Xor(c, b), 8)
  }

  /** The register after a message, before its two halves are exchanged. */
  function Register(c: u16, s: seq<byte>): u16 {
    if s == [] then c else Absorb(Register(c, s[..|s| - 1]), s[|s| - 1])
  }

  function Swap(c: u16): u16 {
    U16(c % 0x100, c / 0x100)
  }

  /** What nmbs_crc_calc returns for a message; the engine sends it most significant byte first. */
  function Checksum(s: seq<byte>): u16 {
    Swap(Register(SEED, s))
  }

  /** recv_msg_footer accepts the frame. */
  predicate Accepted(frame: seq<byte>) {
    |frame| >= 2 && WordAt(frame, |frame| - 2) == Checksum(frame[..|frame| - 2])
  }

  lemma XorWords(a: u16, b: u16)
    ensures Xor(a, b) < 0x1_0000
  {
    assert Pow2(8) == 0x100 && Pow2(16) == 0x100 * Pow2(8);
    XorBound(a, b, 16);
  }

  method CrcCalc(data: array<byte>, length: nat) returns (r: u16)
    requires length <= data.Length
    ensures r == Checksum(data[..length])
  {
    var crc := SEED;
    for i := 0 to length
      invariant crc == Register(SEED, data[..i])
    {
      XorWords(crc, data[i]);
      crc := Xor(crc, data[i]);
      ghost var start := crc;
      var j := 8;
      while j != 0
        invariant 0 <= j <= 8
        invariant 0 <= crc < 0x1_0000 && Turns(crc, j) == Turns(start, 8)
      {
        if crc % 2 != 0 {
          crc := crc / 2;
          XorWords(crc, POLYNOMIAL);
          crc := Xor(crc, POLYNOMIAL);
        } else {
          crc := crc / 2;
        }
        j := j - 1;
      }
      assert data[..i + 1][..i] == data[..i];
    }
    r := Swap(crc);
  }

  // ----- the turns are linear over xor and one to one

  function Feedback(c: u16): u16 {
    if c % 2 == 1 then POLYNOMIAL else 0
  }

  lemma StepIsXor(c: u16)
    ensures Step(c) == Xor(c / 2, Feedback(c))
  {
    XorZero(c / 2);
  }

  lemma StepLinear(a: u16, b: u16)
    ensures Xor(a, b) < 0x1_0000
    ensures Xor(Step(a), Step(b)) < 0x1_0000
    ensures Step(Xor(a, b)) == Xor(Step(a), Step(b))
  {
    XorWords(a, b);
    XorWords(Step(a), Step(b));
    XorDigits(a, b);
    var x, y := a / 2, b / 2;
    StepIsXor(a);
    StepIsXor(b);
    StepIsXor(Xor(a, b));
    var p, q := Feedback(a), Feedback(b);
    XorRegroup(x, p, y, q);
    XorSelf(POLYNOMIAL);
    XorZero(POLYNOMIAL);
  }

  lemma {:induction false} TurnsLinear(a: u16, b: u16, n: nat)
    ensures Xor(a, b) < 0x1_0000
    ensures Turns(Xor(a, b), n) == Xor(Turns(a, n), Turns(b, n))
    decreases n
  {
    XorWords(a, b);
    if n > 0 {
      StepLinear(a, b);
      TurnsLinear(Step(a), Step(b), n - 1);
    }
  }

  /** Only the zero register becomes zero. */
  lemma {:induction false} TurnsToZero(c: u16, n: nat)
    ensures Turns(c, n) == 0 <==> c == 0
    decreases n
  {
    if n > 0 {
      if c % 2 == 1 && Step(c) == 0 {
        XorIsZero(c / 2, POLYNOMIAL);
      }
      TurnsToZero(Step(c), n - 1);
    }
  }

  lemma TurnsInjective(a: u16, b: u16, n: nat)
    requires Turns(a, n) == Turns(b, n)
    ensures a == b
  {
    TurnsLinear(a, b, n);
    XorSelf(Turns(a, n));
    TurnsToZero(Xor(a, b), n);
    XorIsZero(a, b);
  }

  /** Zeros at the low end are shifted out without feedback. */
  lemma {:induction false} TurnsOfMultiple(c: u16, n: nat)
    requires c * Pow2(n) < 0x1_0000
    ensures Turns(c * Pow2(n), n) == c
    decreases n
  {
    if n > 0 {
      var d := c * Pow2(n - 1);
      TwiceThePower(c, n);
      StepOfDouble(d);
      TurnsOfMultiple(c, n - 1);
    }
  }

  lemma TwiceThePower(c: nat, n: nat)
    requires n > 0
    ensures c * Pow2(n) == 2 * (c * Pow2(n - 1))
  {
    var p := Pow2(n - 1);
    assert Pow2(n) == 2 * p;
  }

  lemma StepOfDouble(d: nat)
    requires 2 * d < 0x1_0000
    ensures Step(2 * d) == d
  {
    assert 2 * d % 2 == 0 && 2 * d / 2 == d;
  }

  lemma HighHalfMovesDown(h: byte)
    ensures Turns(0x100 * h, 8) == h
  {
    assert Pow2(8) == 0x100;
    TurnsOfMultiple(h, 8);
  }

  /** No byte but zero is still within the low half after eight turns. */
  lemma ByteLeavesLowHalf(d: byte)
    requires Turns(d, 8) < 0x100
    ensures d == 0
  {
    HighHalfMovesDown(Turns(d, 8));
    TurnsInjective(d, 0x100 * Turns(d, 8), 8);
  }

  lemma XorBytes(a: byte, b: byte)
    ensures Xor(a, b) < 0x100
  {
    assert Pow2(8) == 0x100;
    XorBound(a, b, 8);
  }

  lemma AbsorbInjective(c: u16, d: u16, b: byte)
    requires Absorb(c, b) == Absorb(d, b)
    ensures c == d
  {
    XorWords(c, b);
    XorWords(d, b);
    TurnsInjective(Xor(c, b), Xor(d, b), 8);
    XorInjective(c, d, b);
  }

  /** Two bytes in a row cannot make up for each other. */
  lemma TwoBytesSeparate(c: u16, b0: byte, b1: byte, d0: byte, d1: byte)
    requires Absorb(Absorb(c, b0), b1) == Absorb(Absorb(c, d0), d1)
    ensures b0 == d0 && b1 == d1
  {
    var p, q := Absorb(c, b0), Absorb(c, d0);
    XorWords(p, b1);
    XorWords(q, d1);
    TurnsInjective(Xor(p, b1), Xor(q, d1), 8);
    // the registers differ by what the second bytes differ by
    XorRegroup(p, b1, q, d1);
    XorSelf(Xor(p, b1));
    XorIsZero(Xor(p, q), Xor(b1, d1));
    XorBytes(b1, d1);
    // and by the image of what the first bytes differ by
    XorWords(c, b0);
    XorWords(c, d0);
    TurnsLinear(Xor(c, b0), Xor(c, d0), 8);
    XorRegroup(c, b0, c, d0);
    XorSelf(c);
    XorZero(Xor(b0, d0));
    XorBytes(b0, d0);
    ByteLeavesLowHalf(Xor(b0, d0));
    XorIsZero(b0, d0);
    TurnsToZero(0, 8);
    XorIsZero(b1, d1);
  }

  // ----- the residue form of the footer check

  lemma RegisterAppend(c: u16, s: seq<byte>, b: byte)
    ensures Register(c, s + [b]) == Absorb(Register(c, s), b)
  {
    assert (s + [b])[..|s|] == s;
  }

  lemma {:induction false} RegisterConcat(c: u16, s: seq<byte>, t: seq<byte>)
    ensures Register(c, s + t) == Register(Register(c, s), t)
  {
    if t == [] {
      assert s + t == s;
    } else {
      var m := t[..|t| - 1];
      assert s + t == (s + m) + [t[|t| - 1]];
      RegisterAppend(c, s + m, t[|t| - 1]);
      RegisterConcat(c, s, m);
    }
  }

  lemma {:induction false} XorByDigits(h: byte, l: byte, n: nat)
    requires l < Pow2(n)
    ensures Xor(Pow2(n) * h + l, l) == Pow2(n) * h
    decreases n
  {
    if n == 0 {
      XorZero(h);
    } else {
      var d := Pow2(n - 1) * h;
      assert Pow2(n) * h == 2 * d;
      assert (2 * d + l) / 2 == d + l / 2;
      XorByDigits(h, l / 2, n - 1);
      XorDigits(2 * d + l, l);
    }
  }

  /** The low half and then the high half of the register bring it to zero; no other two bytes do. */
  lemma ZeroAfterTrailer(c: u16, t0: byte, t1: byte)
    ensures Absorb(Absorb(c, t0), t1) == 0 <==> t0 == c % 0x100 && t1 == c / 0x100
  {
    var l, h := c % 0x100, c / 0x100;
    assert Absorb(Absorb(c, l), h) == 0 by {
      assert Pow2(8) == 0x100;
      XorByDigits(h, l, 8);
      HighHalfMovesDown(h);
      XorSelf(h);
      TurnsToZero(0, 8);
    }
    if Absorb(Absorb(c, t0), t1) == 0 {
      TwoBytesSeparate(c, t0, t1, l, h);
    }
  }

  /** The footer check accepts exactly the frames that leave the register at zero, trailer included. */
  lemma AcceptedIffZeroResidue(frame: seq<byte>)
    requires |frame| >= 2
    ensures Accepted(frame) <==> Register(SEED, frame) == 0
  {
    hide Register, Absorb;
    var n := |frame| - 2;
    var body, t0, t1 := frame[..n], frame[n], frame[n + 1];
    assert frame == (body + [t0]) + [t1];
    RegisterAppend(SEED, body + [t0], t1);
    RegisterAppend(SEED, body, t0);
    ZeroAfterTrailer(Register(SEED, body), t0, t1);
  }

  /** Every frame that send_msg closes leaves the register at zero, and is accepted. */
  lemma SealedIsAccepted(body: seq<byte>)
    ensures Accepted(body + Be(Checksum(body)))
    ensures Register(SEED, body + Be(Checksum(body))) == 0
  {
    var frame := body + Be(Checksum(body));
    assert frame[..|frame| - 2] == body;
    AcceptedIffZeroResidue(frame);
  }

  // ----- errors confined to two neighbouring bytes

  lemma {:induction false} RegisterInjective(c: u16, d: u16, s: seq<byte>)
    requires Register(c, s) == Register(d, s)
    ensures c == d
  {
    if s != [] {
      var m := s[..|s| - 1];
      AbsorbInjective(Register(c, m), Register(d, m), s[|s| - 1]);
      RegisterInjective(c, d, m);
    }
  }

  lemma RegisterAround(c: u16, head: seq<byte>, b0: byte, b1: byte, tail: seq<byte>)
    ensures Register(c, ((head + [b0]) + [b1]) + tail) == Register(Absorb(Absorb(Register(c, head), b0), b1), tail)
  {
    RegisterConcat(c, (head + [b0]) + [b1], tail);
    RegisterAppend(c, head + [b0], b1);
    RegisterAppend(c, head, b0);
  }

  lemma SplitAround(f: seq<byte>, i: nat)
    requires i + 1 < |f|
    ensures f == ((f[..i] + [f[i]]) + [f[i + 1]]) + f[i + 2..]
  {}

  lemma EqualRegistersEqualFrames(f: seq<byte>, g: seq<byte>, i: nat)
    requires |f| == |g| && i + 1 < |f|
    requires forall j :: 0 <= j < |f| && j != i && j != i + 1 ==> f[j] == g[j]
    requires Register(SEED, f) == Register(SEED, g)
    ensures f == g
  {
    var head, tail := f[..i], f[i + 2..];
    assert g[..i] == head && g[i + 2..] == tail;
    SplitAround(f, i);
    SplitAround(g, i);
    RegisterAround(SEED, head, f[i], f[i + 1], tail);
    RegisterAround(SEED, head, g[i], g[i + 1], tail);
    var c := Register(SEED, head);
    RegisterInjective(Absorb(Absorb(c, f[i]), f[i + 1]), Absorb(Absorb(c, g[i]), g[i + 1]), tail);
    TwoBytesSeparate(c, f[i], f[i + 1], g[i], g[i + 1]);
  }

  /** No two different frames of one length that agree outside positions i and i + 1 are both accepted. */
  lemma DetectsErrorInTwoAdjacentBytes(f: seq<byte>, g: seq<byte>, i: nat)
    requires |f| == |g| && i + 1 < |f|
    requires forall j :: 0 <= j < |f| && j != i && j != i + 1 ==> f[j] == g[j]
    requires f != g
    ensures !(Accepted(f) && Accepted(g))
  {
    if Accepted(f) && Accepted(g) {
      AcceptedIffZeroResidue(f);
      AcceptedIffZeroResidue(g);
      EqualRegistersEqualFrames(f, g, i);
      assert false;
    }
  }

  // ----- parity

  lemma PolynomialIsOdd()
    ensures Odd(POLYNOMIAL)
  {
    assert !Odd(0xA);
    OddTimesPower(0xA, 4);
    OddTimesPower(0xA0, 4);
    OddTimesPower(0xA00, 3);
    assert Odd(0x5000) == Odd(0x2800) == Odd(0x1400);
  }

  lemma {:induction false} OddTimesPower(n: nat, k: nat)
    ensures Odd(Pow2(k) * n) <==> Odd(n)
  {
    if k > 0 {
      assert Pow2(k) * n == 2 * (Pow2(k - 1) * n);
      OddTimesPower(n, k - 1);
    }
  }

  /** 0xA001 has three digits, so the digit that is shifted out is made up for. */
  lemma StepKeepsOdd(c: u16)
    ensures Odd(Step(c)) <==> Odd(c)
  {
    OddXor(c / 2, POLYNOMIAL);
    PolynomialIsOdd();
  }

  lemma {:induction false} TurnsKeepOdd(c: u16, n: nat)
    ensures Odd(Turns(c, n)) <==> Odd(c)
    decreases n
  {
    if n > 0 {
      StepKeepsOdd(c);
      TurnsKeepOdd(Step(c), n - 1);
    }
  }

  /** An odd number of the bits of a message are 1. */
  predicate OddMessage(s: seq<byte>) {
    s != [] && (OddMessage(s[..|s| - 1]) != Odd(s[|s| - 1]))
  }

  /** The register is odd exactly when the bits it has absorbed are. */
  lemma {:induction false} RegisterParity(s: seq<byte>)
    ensures Odd(Register(SEED, s)) <==> OddMessage(s)
  {
    if s == [] {
      SeedIsEven();
    } else {
      var m, b := s[..|s| - 1], s[|s| - 1];
      var c := Register(SEED, m);
      RegisterParity(m);
      OddXor(c, b);
      XorWords(c, b);
      TurnsKeepOdd(Xor(c, b), 8);
    }
  }

  lemma SeedIsEven()
    ensures !Odd(SEED)
  {
    assert !Odd(0xF);
    assert Pow2(4) == 0x10 && Pow2(8) == 0x100;
    OddHalves(0xF, 0xF, 4);
    OddHalves(0xFF, 0xFF, 8);
  }

  lemma {:induction false} OddHalves(h: byte, l: byte, n: nat)
    requires l < Pow2(n)
    ensures Odd(Pow2(n) * h + l) <==> (Odd(h) != Odd(l))
    decreases n
  {
    if n > 0 {
      TwiceThePower(h, n);
      OddOfDouble(h * Pow2(n - 1), l);
      OddHalves(h, l / 2, n - 1);
    }
  }

  /** The lowest digit of a number and the parity of the others. */
  lemma OddOfDouble(d: nat, l: nat)
    ensures Odd(2 * d + l) <==> ((l % 2 == 1) != Odd(d + l / 2))
  {
    assert (2 * d + l) / 2 == d + l / 2 && (2 * d + l) % 2 == l % 2;
  }

  lemma OddInBytes(h: byte, l: byte)
    ensures Odd(U16(h, l)) <==> (Odd(h) != Odd(l))
  {
    assert Pow2(4) == 0x10 && Pow2(8) == 0x10 * Pow2(4);
    OddHalves(h, l, 8);
  }

  lemma OddSwap(c: u16)
    ensures Odd(Swap(c)) <==> Odd(c)
  {
    var h, l := c / 0x100, c % 0x100;
    assert U16(h, l) == c;
    OddInBytes(h, l);
    OddInBytes(l, h);
  }

  /** The checksum has the parity of the message. */
  lemma ChecksumParity(s: seq<byte>)
    ensures Odd(Checksum(s)) <==> OddMessage(s)
  {
    RegisterParity(s);
    OddSwap(Register(SEED, s));
  }

  /** In how many bits two messages of one length differ. */
  function FlippedBits(f: seq<byte>, g: seq<byte>): nat
    requires |f| == |g|
  {
    if f == [] then 0
    else
      var n := |f| - 1;
      FlippedBits(f[..n], g[..n]) + Ones(Xor(f[n], g[n]))
  }

  lemma {:induction false} FlippedBitsParity(f: seq<byte>, g: seq<byte>)
    requires |f| == |g|
    ensures OddMessage(f) != OddMessage(g) <==> FlippedBits(f, g) % 2 == 1
  {
    if f != [] {
      var n := |f| - 1;
      FlippedBitsParity(f[..n], g[..n]);
      OddXor(f[n], g[n]);
      OddOnes(Xor(f[n], g[n]));
    }
  }

  /** A frame damaged in an odd number of bits is never accepted together with the original. */
  lemma DetectsOddNumberOfFlips(f: seq<byte>, g: seq<byte>)
    requires |f| == |g| >= 2
    requires FlippedBits(f, g) % 2 == 1
    ensures !(Accepted(f) && Accepted(g))
  {
    if Accepted(f) && Accepted(g) {
      AcceptedIffZeroResidue(f);
      AcceptedIffZeroResidue(g);
      RegisterParity(f);
      RegisterParity(g);
      FlippedBitsParity(f, g);
      assert false;
    }
  }
}
