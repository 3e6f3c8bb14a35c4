/**
 * The checksum as the standard has it, without the shifting register: a message is a polynomial over two elements, in
 * the order in which its bits go on the line, and the checksum is what remains of it by division.
 */
module CrcPolynomial {
  import opened Words
  import opened Bits
  import opened Crc

  /** A polynomial times x^16 + x^15 + x^2 + 1; digit k of a number is the coefficient of x^k. */
  function TimesGenerator(q: nat): nat {
    Xor(Xor(q * 0x1_0000, q * 0x8000), Xor(q * 4, q))
  }

  /** The last k digits in the opposite order: the lowest bit of a byte goes first on the line. */
  function Reflect(n: nat, k: nat): (r: nat)
    ensures r < Pow2(k)
  {
    if k == 0 then 0 else n % 2 * Pow2(k - 1) + Reflect(n / 2, k - 1)
  }

  function MessagePolynomial(s: seq<byte>): nat {
    if s == [] then 0 else 0x100 * MessagePolynomial(s[..|s| - 1]) + Reflect(s[|s| - 1], 8)
  }

  // ----- digits

  lemma XorDouble(a: nat, b: nat)
    ensures Xor(2 * a, 2 * b) == 2 * Xor(a, b)
  {
    XorDigits(2 * a, 2 * b);
    assert 2 * a / 2 == a && 2 * b / 2 == b && 2 * a % 2 == 0 && 2 * b % 2 == 0;
    SameHalfAndDigit(Xor(2 * a, 2 * b), 2 * Xor(a, b));
  }

  lemma {:induction false} XorShift(a: nat, b: nat, k: nat)
    ensures Xor(a * Pow2(k), b * Pow2(k)) == Xor(a, b) * Pow2(k)
  {
    if k > 0 {
      XorShift(a, b, k - 1);
      XorDouble(a * Pow2(k - 1), b * Pow2(k - 1));
      TwiceThePower(a, k);
      TwiceThePower(b, k);
      TwiceThePower(Xor(a, b), k);
    }
  }

  /** Above and below digit k, the digits have nothing to do with each other. */
  lemma {:induction false} XorApart(a: nat, b: nat, c: nat, d: nat, k: nat)
    requires c < Pow2(k) && d < Pow2(k)
    ensures Xor(a * Pow2(k) + c, b * Pow2(k) + d) == Xor(a, b) * Pow2(k) + Xor(c, d)
    decreases k
  {
    hide Xor, Pow2;
    if k == 0 {
      PowerZero();
      XorZero(0);
    } else {
      HalfBound(c, k);
      HalfBound(d, k);
      XorApart(a, b, c / 2, d / 2, k - 1);
      var x, y, z := a * Pow2(k - 1), b * Pow2(k - 1), Xor(a, b) * Pow2(k - 1);
      TwiceThePower(a, k);
      TwiceThePower(b, k);
      TwiceThePower(Xor(a, b), k);
      OneMoreDigit(x, y, z, c, d);
    }
  }

  lemma OneMoreDigit(x: nat, y: nat, z: nat, c: nat, d: nat)
    requires Xor(x + c / 2, y + d / 2) == z + Xor(c / 2, d / 2)
    ensures Xor(2 * x + c, 2 * y + d) == 2 * z + Xor(c, d)
  {
    hide Xor;
    HalfApart(x, c);
    HalfApart(y, d);
    XorDigits(2 * x + c, 2 * y + d);
    XorDigits(c, d);
    HalfApart(z, Xor(c, d));
    SameHalfAndDigit(Xor(2 * x + c, 2 * y + d), 2 * z + Xor(c, d));
  }

  lemma PowerZero()
    ensures Pow2(0) == 1
  {}

  lemma HalfBound(c: nat, k: nat)
    requires k > 0 && c < Pow2(k)
    ensures c / 2 < Pow2(k - 1)
  {}

  lemma HalfApart(a: nat, c: nat)
    ensures (2 * a + c) / 2 == a + c / 2 && (2 * a + c) % 2 == c % 2
  {}

  /** A digit above all others is added. */
  lemma TopDigit(r: nat, k: nat)
    requires r < Pow2(k)
    ensures Xor(r, Pow2(k)) == Pow2(k) + r
  {
    XorApart(0, 1, r, 0, k);
    XorZero(1);
    XorZero(r);
  }

  // ----- reflecting

  lemma {:induction false} ReflectXor(a: nat, b: nat, k: nat)
    ensures Reflect(Xor(a, b), k) == Xor(Reflect(a, k), Reflect(b, k))
    decreases k
  {
    if k == 0 {
      XorZero(0);
    } else {
      ReflectXor(a / 2, b / 2, k - 1);
      XorDigits(a, b);
      XorApart(a % 2, b % 2, Reflect(a / 2, k - 1), Reflect(b / 2, k - 1), k - 1);
      OneDigit(a % 2, b % 2);
    }
  }

  lemma OneDigit(a: nat, b: nat)
    requires a < 2 && b < 2
    ensures Xor(a, b) == if a == b then 0 else 1
  {
    XorSelf(a);
    XorZero(1);
  }

  lemma {:induction false} ReflectWider(n: nat, k: nat)
    requires n < Pow2(k)
    ensures Reflect(n, k + 1) == 2 * Reflect(n, k)
    decreases k
  {
    if k > 0 {
      ReflectWider(n / 2, k - 1);
      TwiceThePower(n % 2, k);
    }
  }

  /** A byte is reflected into the high half of the register. */
  lemma ReflectByte(b: byte)
    ensures Reflect(b, 16) == 0x100 * Reflect(b, 8)
  {
    assert Pow2(8) == 0x100;
    assert Pow2(9) == 2 * 0x100 && Pow2(10) == 2 * Pow2(9) && Pow2(11) == 2 * Pow2(10) && Pow2(12) == 2 * Pow2(11);
    assert Pow2(13) == 2 * Pow2(12) && Pow2(14) == 2 * Pow2(13) && Pow2(15) == 2 * Pow2(14);
    ReflectWider(b, 8);
    ReflectWider(b, 9);
    ReflectWider(b, 10);
    ReflectWider(b, 11);
    ReflectWider(b, 12);
    ReflectWider(b, 13);
    ReflectWider(b, 14);
    ReflectWider(b, 15);
  }

  // ----- multiplying

  lemma PowersOfTwo()
    ensures Pow2(2) == 4 && Pow2(8) == 0x100 && Pow2(15) == 0x8000 && Pow2(16) == 0x1_0000
  {
    assert Pow2(4) == 0x10 && Pow2(8) == 0x10 * Pow2(4) && Pow2(12) == 0x10 * Pow2(8);
    assert Pow2(15) == 8 * Pow2(12);
  }

  lemma TimesGeneratorXor(a: nat, b: nat)
    ensures TimesGenerator(Xor(a, b)) == Xor(TimesGenerator(a), TimesGenerator(b))
  {
    PowersOfTwo();
    XorShift(a, b, 16);
    XorShift(a, b, 15);
    XorShift(a, b, 2);
    XorRegroup(a * 0x1_0000, b * 0x1_0000, a * 0x8000, b * 0x8000);
    XorRegroup(a * 4, b * 4, a, b);
    XorRegroup(Xor(a * 0x1_0000, a * 0x8000), Xor(b * 0x1_0000, b * 0x8000), Xor(a * 4, a), Xor(b * 4, b));
  }

  lemma TimesGeneratorShift(q: nat, k: nat)
    ensures TimesGenerator(q * Pow2(k)) == TimesGenerator(q) * Pow2(k)
  {
    var p := Pow2(k);
    Commutes(q, p, 0x1_0000);
    Commutes(q, p, 0x8000);
    Commutes(q, p, 4);
    XorShift(q * 0x1_0000, q * 0x8000, k);
    XorShift(q * 4, q, k);
    XorShift(Xor(q * 0x1_0000, q * 0x8000), Xor(q * 4, q), k);
  }

  lemma Commutes(q: nat, p: nat, c: nat)
    ensures (q * p) * c == (q * c) * p
  {}

  lemma Generator()
    ensures TimesGenerator(1) == 0x1_8005 && TimesGenerator(0) == 0
  {
    PowersOfTwo();
    TopDigit(0x8000, 16);
    XorSymmetric(0x8000, 0x1_0000);
    TopDigit(1, 2);
    XorSymmetric(1, 4);
    XorApart(3, 0, 0, 5, 15);
    XorZero(3);
    XorZero(5);
    XorZero(0);
  }

  // ----- the register

  lemma ReflectedPolynomial()
    ensures Reflect(0xA001, 16) == 0x8005
  {
    PowersOfTwo();
    assert Reflect(5, 3) == 5;
    ReflectZeros(5, 3, 12);
    ReflectOnce(0xA001, 16);
  }

  lemma ReflectOnce(n: nat, k: nat)
    requires k > 0
    ensures Reflect(n, k) == n % 2 * Pow2(k - 1) + Reflect(n / 2, k - 1)
  {}

  lemma ReflectDouble(m: nat, k: nat)
    requires k > 0
    ensures Reflect(2 * m, k) == Reflect(m, k - 1)
  {
    assert 2 * m % 2 == 0 && 2 * m / 2 == m;
  }

  /** Zeros at the low end are in front when reflected. */
  lemma {:induction false} ReflectZeros(n: nat, k: nat, zeros: nat)
    ensures Reflect(n * Pow2(zeros), k + zeros) == Reflect(n, k)
    decreases zeros
  {
    hide Pow2, Reflect;
    if zeros > 0 {
      TwiceThePower(n, zeros);
      ReflectZeros(n, k, zeros - 1);
      ReflectDouble(n * Pow2(zeros - 1), k + zeros);
    } else {
      PowerZero();
    }
  }

  /** One turn multiplies by x, and takes away the generator if that has reached x^16. */
  lemma StepReflected(c: u16)
    ensures Xor(TimesGenerator(c % 2), Reflect(Step(c), 16)) == 2 * Reflect(c, 16)
  {
    hide Xor, Pow2, Reflect, TimesGenerator;
    PowersOfTwo();
    Generator();
    var rest := Reflect(c / 2, 16);
    ReflectWider(c / 2, 15);
    ReflectOnce(c, 16);
    assert 2 * Reflect(c, 16) == c % 2 * 0x1_0000 + rest;
    if c % 2 == 0 {
      XorZero(rest);
    } else {
      ReflectedPolynomial();
      ReflectXor(c / 2, 0xA001, 16);
      TopDigit(0x8005, 16);
      XorSymmetric(0x8005, 0x1_0000);
      TopDigit(rest, 16);
      XorSymmetric(rest, 0x8005);
      XorAssociative(0x1_8005, 0x8005, rest);
      XorTwice(0x1_0000, 0x8005);
      XorSymmetric(0x1_0000, rest);
    }
  }

  /** n turns multiply by x^n, up to a multiple of the generator. */
  lemma {:induction false} TurnsReflected(c: u16, n: nat) returns (q: nat)
    ensures Xor(TimesGenerator(q), Reflect(Turns(c, n), 16)) == Reflect(c, 16) * Pow2(n)
    decreases n
  {
    hide Xor, Pow2, Reflect, TimesGenerator, Step;
    if n == 0 {
      q := 0;
      Generator();
      PowerZero();
      XorZero(Reflect(c, 16));
    } else {
      var d, bit := Step(c), c % 2;
      var q' := TurnsReflected(d, n - 1);
      StepReflected(c);
      XorShift(TimesGenerator(bit), Reflect(d, 16), n - 1);
      TimesGeneratorShift(bit, n - 1);
      TwiceThePower(Reflect(c, 16), n);
      Commutes(2, Reflect(c, 16), Pow2(n - 1));
      q := Xor(bit * Pow2(n - 1), q');
      TimesGeneratorXor(bit * Pow2(n - 1), q');
      XorAssociative(TimesGenerator(bit * Pow2(n - 1)), TimesGenerator(q'), Reflect(Turns(d, n - 1), 16));
      assert (2 * Reflect(c, 16)) * Pow2(n - 1) == Reflect(c, 16) * Pow2(n);
    }
  }

  /** What is divided: the message, shifted by 16, with the seed of 16 ones added in front. */
  function Dividend(s: seq<byte>): nat {
    Xor(MessagePolynomial(s) * 0x1_0000, 0xFFFF * Pow2(8 * |s|))
  }

  lemma DividendOfMore(s: seq<byte>, b: byte)
    ensures Dividend(s + [b]) == Xor(Dividend(s) * 0x100, Reflect(b, 8) * 0x1_0000)
  {
    hide Xor, Pow2, Reflect;
    PowersOfTwo();
    var m, r, seed := MessagePolynomial(s), Reflect(b, 8), 0xFFFF * Pow2(8 * |s|);
    assert (s + [b])[..|s|] == s;
    assert Pow2(8 * |s| + 8) == 0x100 * Pow2(8 * |s|) by {
      Pow2Sum(8 * |s|, 8);
    }
    assert 8 * |s + [b]| == 8 * |s| + 8;
    XorApart(m, 0, 0, r, 8);
    XorZero(m);
    XorZero(r);
    assert MessagePolynomial(s + [b]) == Xor(m * 0x100, r);
    XorShift(m * 0x100, r, 16);
    XorShift(m * 0x1_0000, seed, 8);
    XorAssociative(m * 0x100_0000, r * 0x1_0000, seed * 0x100);
    XorSymmetric(r * 0x1_0000, seed * 0x100);
    XorAssociative(m * 0x100_0000, seed * 0x100, r * 0x1_0000);
  }

  lemma {:induction false} Pow2Sum(a: nat, b: nat)
    ensures Pow2(a + b) == Pow2(b) * Pow2(a)
    decreases b
  {
    if b > 0 {
      Pow2Sum(a, b - 1);
      var p, q := Pow2(b - 1), Pow2(a);
      assert 2 * (p * q) == (2 * p) * q;
    }
  }

  /** The register, reflected, is what remains of the message by division. */
  lemma {:induction false} RegisterIsRemainder(s: seq<byte>) returns (q: nat)
    ensures Xor(TimesGenerator(q), Reflect(Register(SEED, s), 16)) == Dividend(s)
    ensures Reflect(Register(SEED, s), 16) < 0x1_0000
  {
    hide Xor, Pow2, Reflect, TimesGenerator, Dividend, Turns;
    PowersOfTwo();
    if s == [] {
      q := 0;
      Generator();
      AllOnes();
      XorZero(0xFFFF);
      DividendOfNothing();
    } else {
      var init, b := s[..|s| - 1], s[|s| - 1];
      assert init + [b] == s;
      var q' := RegisterIsRemainder(init);
      var c := Register(SEED, init);
      XorWords(c, b);
      var q'' := TurnsReflected(Xor(c, b), 8);
      ReflectXor(c, b, 16);
      ReflectByte(b);
      XorShift(Reflect(c, 16), Reflect(b, 16), 8);
      DividendOfMore(init, b);
      XorShift(TimesGenerator(q'), Reflect(c, 16), 8);
      TimesGeneratorShift(q', 8);
      q := Xor(q' * 0x100, q'');
      TimesGeneratorXor(q' * 0x100, q'');
      var g, g', r, x, y := TimesGenerator(q' * 0x100), TimesGenerator(q''), Reflect(Register(SEED, s), 16),
                            Reflect(c, 16) * 0x100, Reflect(b, 16) * 0x100;
      XorAssociative(g, g', r);
      XorAssociative(g, x, y);
      assert Xor(g', r) == Xor(x, y);
      assert Dividend(init) * 0x100 == Xor(g, x);
    }
  }

  lemma DividendOfNothing()
    ensures Dividend([]) == 0xFFFF
  {
    hide Xor;
    PowerZero();
    var none: seq<byte> := [];
    assert Pow2(8 * |none|) == 1 && MessagePolynomial(none) == 0;
    XorZero(0xFFFF);
  }

  lemma AllOnes()
    ensures Reflect(SEED, 16) == 0xFFFF
  {
    OnesReflected(16);
    PowersOfTwo();
  }

  lemma {:induction false} OnesReflected(k: nat)
    ensures Reflect(Pow2(k) - 1, k) == Pow2(k) - 1
  {
    if k > 0 {
      OnesReflected(k - 1);
      assert (Pow2(k) - 1) / 2 == Pow2(k - 1) - 1 && (Pow2(k) - 1) % 2 == 1;
    }
  }

  // ----- there is only one remainder

  lemma {:induction false} TopPower(n: nat) returns (k: nat)
    requires n > 0
    ensures Pow2(k) <= n < 2 * Pow2(k)
  {
    if n == 1 {
      k := 0;
    } else {
      var j := TopPower(n / 2);
      k := j + 1;
    }
  }

  /** No multiple of the generator but zero is below x^16. */
  lemma MultipleIsLarge(n: nat)
    requires n > 0
    ensures TimesGenerator(n) >= 0x1_0000
  {
    hide Xor, Pow2;
    PowersOfTwo();
    var k := TopPower(n);
    var p, m := Pow2(k), n - Pow2(k);
    Pow2Sum(k, 16);
    Pow2Sum(k, 15);
    Pow2Sum(k, 2);
    PowersGrow(k, 16);
    var top := Pow2(k + 16);
    TopDigit(m, k);
    XorSymmetric(m, p);
    assert n == Xor(p, m);
    TimesGeneratorXor(p, m);
    Generator();
    TimesGeneratorShift(1, k);
    assert TimesGenerator(p) == 0x1_8005 * p;
    assert 0x1_8005 * p == 1 * top + 0x8005 * p;
    BelowTop(m, k);
    XorApart(1, 0, 0x8005 * p, TimesGenerator(m), k + 16);
    XorZero(1);
  }

  lemma PowersGrow(a: nat, b: nat)
    ensures Pow2(a + b) >= Pow2(b)
  {
    Pow2Sum(a, b);
    TimesAtLeast(Pow2(b), Pow2(a));
  }

  lemma TimesAtLeast(x: nat, y: nat)
    requires y >= 1
    ensures x * y >= x
  {}

  lemma BelowTop(m: nat, k: nat)
    requires m < Pow2(k)
    ensures TimesGenerator(m) < Pow2(k + 16) && 0x8005 * Pow2(k) < Pow2(k + 16)
  {
    hide Xor, Pow2;
    PowersOfTwo();
    Pow2Sum(k, 16);
    XorBound(m * 0x1_0000, m * 0x8000, k + 16);
    XorBound(m * 4, m, k + 16);
    XorBound(Xor(m * 0x1_0000, m * 0x8000), Xor(m * 4, m), k + 16);
  }

  lemma OneRemainder(q: nat, r: nat, q': nat, r': nat)
    requires r < 0x1_0000 && r' < 0x1_0000
    requires Xor(TimesGenerator(q), r) == Xor(TimesGenerator(q'), r')
    ensures q == q' && r == r'
  {
    hide Xor, Pow2, TimesGenerator;
    PowersOfTwo();
    var g, g' := TimesGenerator(q), TimesGenerator(q');
    XorRegroup(g, g', r, r');
    XorRegroup(g, r, g', r');
    XorSelf(Xor(g, r));
    XorIsZero(Xor(g, g'), Xor(r, r'));
    TimesGeneratorXor(q, q');
    XorBound(r, r', 16);
    if Xor(q, q') > 0 {
      MultipleIsLarge(Xor(q, q'));
      assert false;
    }
    XorIsZero(q, q');
    XorSelf(g);
    XorIsZero(r, r');
  }

  /**
   * The checksum, as it goes on the line, is that number below x^16 which the dividend exceeds by a multiple of the
   * generator, with its bits in the order in which they are sent.
   */
  lemma ChecksumIsTheRemainder(s: seq<byte>, r: nat)
    requires r < 0x1_0000
    ensures r == Reflect(Swap(Checksum(s)), 16) <==> exists q :: Xor(TimesGenerator(q), r) == Dividend(s)
  {
    hide Xor, Pow2, Reflect, TimesGenerator, Dividend;
    var p := RegisterIsRemainder(s);
    SwapTwice(Register(SEED, s));
    if q :| Xor(TimesGenerator(q), r) == Dividend(s) {
      OneRemainder(p, Reflect(Register(SEED, s), 16), q, r);
    }
  }

  lemma SwapTwice(c: u16)
    ensures Swap(Swap(c)) == c
  {
    var h: byte, l: byte := c / 0x100, c % 0x100;
    assert U16(l, h) / 0x100 == l && U16(l, h) % 0x100 == h;
  }

  /** One turn in plain arithmetic: digits 15, 13 and 0 change if a one is shifted out. */
  function Shifted(c: u16): u16 {
    var m := c / 2;
    if c % 2 == 0 then m
    else 0x8000 + (if m / 0x2000 % 2 == 0 then m + 0x2000 else m - 0x2000) + (if m % 2 == 0 then 1 else -1)
  }

  lemma StepIsShifted(c: u16)
    ensures Step(c) == Shifted(c)
  {
    hide Xor, Pow2;
    PowersOfTwo();
    ThreeDigits();
    if c % 2 == 1 {
      var m := c / 2;
      var top, low := m / 0x2000, m % 0x2000;
      XorApart(top, 5, low, 1, 13);
      XorOne(low);
      XorFive(top);
    }
  }

  lemma ThreeDigits()
    ensures Pow2(13) == 0x2000
  {
    PowersOfTwo();
    assert Pow2(12) == 0x1000;
  }

  lemma XorOne(n: nat)
    ensures Xor(n, 1) == if n % 2 == 0 then n + 1 else n - 1
  {
    XorDigits(n, 1);
    XorZero(n / 2);
  }

  lemma XorFive(n: nat)
    requires n < 4
    ensures Xor(n, 5) == if n % 2 == 0 then n + 5 else n + 3
  {
    assert Xor(0, 5) == 5 && Xor(1, 5) == 4 && Xor(2, 5) == 7 && Xor(3, 5) == 6;
  }

  /** Eight turns on a register whose low half has been combined with a byte, one after the other. */
  lemma AbsorbByShifting(high: byte, low: byte, b: byte, c0: u16, c1: u16, c2: u16, c3: u16, c4: u16, c5: u16, c6: u16,
                         c7: u16, c8: u16)
    requires 0x100 * high + Xor(low, b) == c0
    requires Shifted(c0) == c1 && Shifted(c1) == c2 && Shifted(c2) == c3 && Shifted(c3) == c4
    requires Shifted(c4) == c5 && Shifted(c5) == c6 && Shifted(c6) == c7 && Shifted(c7) == c8
    ensures Absorb(0x100 * high + low, b) == c8
  {
    hide Xor, Pow2, Step, Shifted;
    PowersOfTwo();
    XorApart(high, 0, low, b, 8);
    XorZero(high);
    EightTurns(c0);
    StepIsShifted(c0);
    StepIsShifted(c1);
    StepIsShifted(c2);
    StepIsShifted(c3);
    StepIsShifted(c4);
    StepIsShifted(c5);
    StepIsShifted(c6);
    StepIsShifted(c7);
  }

  lemma EightTurns(c: u16)
    ensures Turns(c, 8) == Step(Step(Step(Step(Step(Step(Step(Step(c))))))))
  {
    hide Step;
    var d := Step(Step(Step(Step(c))));
    assert Turns(c, 8) == Turns(d, 4);
    assert Turns(d, 4) == Step(Step(Step(Step(d))));
  }

  /** The usual check value: the nine characters "123456789". */
  lemma CheckValue()
    ensures Checksum([0x31, 0x32, 0x33, 0x34, 0x35, 0x36, 0x37, 0x38, 0x39]) == 0x374B
  {
    hide Absorb;
    Absorb1();
    Absorb2();
    Absorb3();
    Absorb4();
    Absorb5();
    Absorb6();
    Absorb7();
    Absorb8();
    Absorb9();
    RegisterOfNine(0x31, 0x32, 0x33, 0x34, 0x35, 0x36, 0x37, 0x38, 0x39);
  }

  lemma RegisterOfNine(a: byte, b: byte, c: byte, d: byte, e: byte, f: byte, g: byte, h: byte, i: byte)
    ensures Register(SEED, [a, b, c, d, e, f, g, h, i])
         == Absorb(Absorb(Absorb(Absorb(Absorb(Absorb(Absorb(Absorb(Absorb(SEED, a), b), c), d), e), f), g), h), i)
  {
    hide Absorb;
    assert [] + [a] == [a];
    RegisterAppend(SEED, [], a);
    RegisterAppend(SEED, [a], b);
    RegisterAppend(SEED, [a, b], c);
    RegisterAppend(SEED, [a, b, c], d);
    RegisterAppend(SEED, [a, b, c, d], e);
    RegisterAppend(SEED, [a, b, c, d, e], f);
    RegisterAppend(SEED, [a, b, c, d, e, f], g);
    RegisterAppend(SEED, [a, b, c, d, e, f, g], h);
    RegisterAppend(SEED, [a, b, c, d, e, f, g, h], i);
    assert [a] + [b] == [a, b] && [a, b] + [c] == [a, b, c] && [a, b, c] + [d] == [a, b, c, d];
    assert [a, b, c, d] + [e] == [a, b, c, d, e] && [a, b, c, d, e] + [f] == [a, b, c, d, e, f];
    assert [a, b, c, d, e, f] + [g] == [a, b, c, d, e, f, g];
    assert [a, b, c, d, e, f, g] + [h] == [a, b, c, d, e, f, g, h];
    assert [a, b, c, d, e, f, g, h] + [i] == [a, b, c, d, e, f, g, h, i];
  }

  lemma Xor1()
    ensures Xor(0xFF, 0x31) == 0xCE
  {
    assert Xor(1, 0) == 1 && Xor(3, 0) == 3 && Xor(7, 1) == 6 && Xor(15, 3) == 12;
    assert Xor(31, 6) == 25 && Xor(63, 12) == 51 && Xor(127, 24) == 103;
  }

  lemma Absorb1()
    ensures Absorb(0xFFFF, 0x31) == 0x947E
  {
    hide Xor, Absorb;
    Xor1();
    AbsorbByShifting(0xFF, 0xFF, 0x31, 0xFFCE, 0x7FE7, 0x9FF2, 0x4FF9, 0x87FD,
                     0xE3FF, 0xD1FE, 0x68FF, 0x947E);
  }

  lemma Xor2()
    ensures Xor(0x7E, 0x32) == 0x4C
  {
    assert Xor(0, 0) == 0 && Xor(1, 0) == 1 && Xor(3, 1) == 2 && Xor(7, 3) == 4;
    assert Xor(15, 6) == 9 && Xor(31, 12) == 19 && Xor(63, 25) == 38;
  }

  lemma Absorb2()
    ensures Absorb(0x947E, 0x32) == 0xF595
  {
    hide Xor, Absorb;
    Xor2();
    AbsorbByShifting(0x94, 0x7E, 0x32, 0x944C, 0x4A26, 0x2513, 0xB288, 0x5944,
                     0x2CA2, 0x1651, 0xAB29, 0xF595);
  }

  lemma Xor3()
    ensures Xor(0x95, 0x33) == 0xA6
  {
    assert Xor(1, 0) == 1 && Xor(2, 0) == 2 && Xor(4, 1) == 5 && Xor(9, 3) == 10;
    assert Xor(18, 6) == 20 && Xor(37, 12) == 41 && Xor(74, 25) == 83;
  }

  lemma Absorb3()
    ensures Absorb(0xF595, 0x33) == 0x7A75
  {
    hide Xor, Absorb;
    Xor3();
    AbsorbByShifting(0xF5, 0x95, 0x33, 0xF5A6, 0x7AD3, 0x9D68, 0x4EB4, 0x275A,
                     0x13AD, 0xA9D7, 0xF4EA, 0x7A75);
  }

  lemma Xor4()
    ensures Xor(0x75, 0x34) == 0x41
  {
    assert Xor(0, 0) == 0 && Xor(1, 0) == 1 && Xor(3, 1) == 2 && Xor(7, 3) == 4;
    assert Xor(14, 6) == 8 && Xor(29, 13) == 16 && Xor(58, 26) == 32;
  }

  lemma Absorb4()
    ensures Absorb(0x7A75, 0x34) == 0x30BA
  {
    hide Xor, Absorb;
    Xor4();
    AbsorbByShifting(0x7A, 0x75, 0x34, 0x7A41, 0x9D21, 0xEE91, 0xD749, 0xCBA5,
                     0xC5D3, 0xC2E8, 0x6174, 0x30BA);
  }

  lemma Xor5()
    ensures Xor(0xBA, 0x35) == 0x8F
  {
    assert Xor(1, 0) == 1 && Xor(2, 0) == 2 && Xor(5, 1) == 4 && Xor(11, 3) == 8;
    assert Xor(23, 6) == 17 && Xor(46, 13) == 35 && Xor(93, 26) == 71;
  }

  lemma Absorb5()
    ensures Absorb(0x30BA, 0x35) == 0xA471
  {
    hide Xor, Absorb;
    Xor5();
    AbsorbByShifting(0x30, 0xBA, 0x35, 0x308F, 0xB846, 0x5C23, 0x8E10, 0x4708,
                     0x2384, 0x11C2, 0x08E1, 0xA471);
  }

  lemma Xor6()
    ensures Xor(0x71, 0x36) == 0x47
  {
    assert Xor(0, 0) == 0 && Xor(1, 0) == 1 && Xor(3, 1) == 2 && Xor(7, 3) == 4;
    assert Xor(14, 6) == 8 && Xor(28, 13) == 17 && Xor(56, 27) == 35;
  }

  lemma Absorb6()
    ensures Absorb(0xA471, 0x36) == 0x32E4
  {
    hide Xor, Absorb;
    Xor6();
    AbsorbByShifting(0xA4, 0x71, 0x36, 0xA447, 0xF222, 0x7911, 0x9C89, 0xEE45,
                     0xD723, 0xCB90, 0x65C8, 0x32E4);
  }

  lemma Xor7()
    ensures Xor(0xE4, 0x37) == 0xD3
  {
    assert Xor(1, 0) == 1 && Xor(3, 0) == 3 && Xor(7, 1) == 6 && Xor(14, 3) == 13;
    assert Xor(28, 6) == 26 && Xor(57, 13) == 52 && Xor(114, 27) == 105;
  }

  lemma Absorb7()
    ensures Absorb(0x32E4, 0x37) == 0x9D73
  {
    hide Xor, Absorb;
    Xor7();
    AbsorbByShifting(0x32, 0xE4, 0x37, 0x32D3, 0xB968, 0x5CB4, 0x2E5A, 0x172D,
                     0xAB97, 0xF5CA, 0x7AE5, 0x9D73);
  }

  lemma Xor8()
    ensures Xor(0x73, 0x38) == 0x4B
  {
    assert Xor(0, 0) == 0 && Xor(1, 0) == 1 && Xor(3, 1) == 2 && Xor(7, 3) == 4;
    assert Xor(14, 7) == 9 && Xor(28, 14) == 18 && Xor(57, 28) == 37;
  }

  lemma Absorb8()
    ensures Absorb(0x9D73, 0x38) == 0x37DD
  {
    hide Xor, Absorb;
    Xor8();
    AbsorbByShifting(0x9D, 0x73, 0x38, 0x9D4B, 0xEEA4, 0x7752, 0x3BA9, 0xBDD5,
                     0xFEEB, 0xDF74, 0x6FBA, 0x37DD);
  }

  lemma Xor9()
    ensures Xor(0xDD, 0x39) == 0xE4
  {
    assert Xor(1, 0) == 1 && Xor(3, 0) == 3 && Xor(6, 1) == 7 && Xor(13, 3) == 14;
    assert Xor(27, 7) == 28 && Xor(55, 14) == 57 && Xor(110, 28) == 114;
  }

  lemma Absorb9()
    ensures Absorb(0x37DD, 0x39) == 0x4B37
  {
    hide Xor, Absorb;
    Xor9();
    AbsorbByShifting(0x37, 0xDD, 0x39, 0x37E4, 0x1BF2, 0x0DF9, 0xA6FD, 0xF37F,
                     0xD9BE, 0x6CDF, 0x966E, 0x4B37);
  }
}
