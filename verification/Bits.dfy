/** Bitwise operations on natural numbers, by their binary digits. */
module Bits {

  /** 2 to the power k. */
  function Pow2(k: nat): (p: nat)
    ensures p >= 1
  {
    if k == 0 then 1 else 2 * Pow2(k - 1)
  }

  function Xor(a: nat, b: nat): nat
    decreases a + b
  {
    if a == 0 && b == 0 then 0 else 2 * Xor(a / 2, b / 2) + if a % 2 == b % 2 then 0 else 1
  }

  function And(a: nat, b: nat): nat
    decreases a
  {
    if a == 0 then 0 else 2 * And(a / 2, b / 2) + (a % 2) * (b % 2)
  }

  /** Digit i of n is 1. */
  predicate Bit(n: nat, i: nat)
    decreases i
  {
    if i == 0 then n % 2 == 1 else Bit(n / 2, i - 1)
  }

  /** An odd number of digits are 1. */
  predicate Odd(n: nat) {
    n != 0 && ((n % 2 == 1) != Odd(n / 2))
  }

  /** How many digits are 1. */
  function Ones(n: nat): nat {
    if n == 0 then 0 else n % 2 + Ones(n / 2)
  }

  lemma XorDigits(a: nat, b: nat)
    ensures Xor(a, b) / 2 == Xor(a / 2, b / 2)
    ensures Xor(a, b) % 2 == if a % 2 == b % 2 then 0 else 1
  {}

  lemma SameHalfAndDigit(m: nat, n: nat)
    requires m / 2 == n / 2 && m % 2 == n % 2
    ensures m == n
  {}

  lemma {:induction false} XorSymmetric(a: nat, b: nat)
    ensures Xor(a, b) == Xor(b, a)
    decreases a + b
  {
    if a != 0 || b != 0 {
      XorSymmetric(a / 2, b / 2);
    }
  }

  lemma {:induction false} XorZero(a: nat)
    ensures Xor(a, 0) == a && Xor(0, a) == a
  {
    if a != 0 {
      XorZero(a / 2);
    }
  }

  lemma {:induction false} XorSelf(a: nat)
    ensures Xor(a, a) == 0
  {
    if a != 0 {
      XorSelf(a / 2);
    }
  }

  lemma {:induction false} XorAssociative(a: nat, b: nat, c: nat)
    ensures Xor(Xor(a, b), c) == Xor(a, Xor(b, c))
    decreases a + b + c
  {
    if a != 0 || b != 0 || c != 0 {
      var x, y := Xor(a, b), Xor(b, c);
      XorDigits(a, b);
      XorDigits(b, c);
      XorDigits(x, c);
      XorDigits(a, y);
      XorAssociative(a / 2, b / 2, c / 2);
      SameHalfAndDigit(Xor(x, c), Xor(a, y));
    }
  }

  /** Xor with the same number twice changes nothing. */
  lemma XorTwice(a: nat, b: nat)
    ensures Xor(Xor(a, b), b) == a
  {
    XorAssociative(a, b, b);
    XorSelf(b);
    XorZero(a);
  }

  lemma XorInjective(a: nat, b: nat, c: nat)
    requires Xor(a, c) == Xor(b, c)
    ensures a == b
  {
    XorTwice(a, c);
    XorTwice(b, c);
  }

  lemma XorIsZero(a: nat, b: nat)
    requires Xor(a, b) == 0
    ensures a == b
  {
    XorTwice(a, b);
    XorZero(b);
  }

  lemma {:induction false} XorBound(a: nat, b: nat, k: nat)
    requires a < Pow2(k) && b < Pow2(k)
    ensures Xor(a, b) < Pow2(k)
    decreases k
  {
    if k > 0 {
      XorBound(a / 2, b / 2, k - 1);
    }
  }

  /** A sum of four can be regrouped. */
  lemma XorRegroup(a: nat, b: nat, c: nat, d: nat)
    ensures Xor(Xor(a, b), Xor(c, d)) == Xor(Xor(a, c), Xor(b, d))
  {
    XorAssociative(a, b, Xor(c, d));
    XorAssociative(b, c, d);
    XorSymmetric(b, c);
    XorAssociative(c, b, d);
    XorAssociative(a, c, Xor(b, d));
  }

  lemma {:induction false} OddXor(a: nat, b: nat)
    ensures Odd(Xor(a, b)) <==> (Odd(a) != Odd(b))
    decreases a + b
  {
    if a != 0 || b != 0 {
      OddXor(a / 2, b / 2);
      XorDigits(a, b);
    }
  }

  lemma {:induction false} OddOnes(n: nat)
    ensures Odd(n) <==> Ones(n) % 2 == 1
  {
    if n != 0 {
      OddOnes(n / 2);
    }
  }

  /** A mask of k ones keeps the remainder modulo 2 to the k. */
  lemma {:induction false} MaskIsRemainder(n: nat, k: nat)
    ensures And(n, Pow2(k) - 1) == n % Pow2(k)
    decreases k
  {
    if k == 0 {
      AndZero(n);
    } else if n != 0 {
      var p := Pow2(k - 1);
      MaskIsRemainder(n / 2, k - 1);
      HalfRemainder(n, p);
      assert (2 * p - 1) / 2 == p - 1 && (2 * p - 1) % 2 == 1;
    }
  }

  lemma {:induction false} AndZero(n: nat)
    ensures And(n, 0) == 0
  {
    if n != 0 {
      AndZero(n / 2);
    }
  }

  lemma HalfRemainder(n: nat, p: nat)
    requires p >= 1
    ensures n % (2 * p) == 2 * (n / 2 % p) + n % 2
  {
    var q, r := n / 2 / p, n / 2 % p;
    assert n / 2 == q * p + r;
    assert 2 * (q * p) == q * (2 * p);
    RemainderUnique(n, 2 * p, q, 2 * r + n % 2);
  }

  lemma RemainderUnique(n: nat, m: nat, q: int, r: nat)
    requires m >= 1 && n == q * m + r && r < m
    ensures n % m == r
  {
    var d := n / m - q;
    assert n == (n / m) * m + n % m;
    assert d * m == (n / m) * m - q * m;
    TimesSign(d, m);
  }

  lemma TimesSign(d: int, m: int)
    requires m >= 0
    ensures d >= 1 ==> d * m >= m
    ensures d <= -1 ==> d * m <= -m
  {}

  // ----- single digits

  function Or(a: nat, b: nat): nat
    decreases a + b
  {
    if a == 0 && b == 0 then 0 else 2 * Or(a / 2, b / 2) + if a % 2 == 1 || b % 2 == 1 then 1 else 0
  }

  lemma {:induction false} BitOfZero(i: nat)
    ensures !Bit(0, i)
  {
    if i > 0 {
      BitOfZero(i - 1);
    }
  }

  lemma {:induction false} BitOfOr(a: nat, b: nat, i: nat)
    ensures Bit(Or(a, b), i) <==> Bit(a, i) || Bit(b, i)
    decreases i
  {
    if a == 0 && b == 0 {
      BitOfZero(i);
    } else if i > 0 {
      BitOfOr(a / 2, b / 2, i - 1);
    }
  }

  lemma {:induction false} BitOfAnd(a: nat, b: nat, i: nat)
    ensures Bit(And(a, b), i) <==> Bit(a, i) && Bit(b, i)
    decreases i
  {
    if a == 0 {
      BitOfZero(i);
    } else {
      assert (a % 2) * (b % 2) == if a % 2 == 1 && b % 2 == 1 then 1 else 0;
      if i > 0 {
        BitOfAnd(a / 2, b / 2, i - 1);
      }
    }
  }

  lemma {:induction false} BitOfPow2(k: nat, i: nat)
    ensures Bit(Pow2(k), i) <==> i == k
    decreases k
  {
    if k == 0 {
      if i > 0 {
        BitOfZero(i - 1);
      }
    } else if i > 0 {
      BitOfPow2(k - 1, i - 1);
    }
  }

  /** All digits below n are 1, except digit k. */
  lemma {:induction false} BitOfComplement(n: nat, k: nat, i: nat)
    requires k < n
    ensures Pow2(k) <= Pow2(n) - 1
    ensures Bit(Pow2(n) - 1 - Pow2(k), i) <==> i < n && i != k
    decreases k
  {
    var m: nat := Pow2(n - 1) - 1;
    if k == 0 {
      assert Pow2(n) - 1 - Pow2(k) == 2 * m;
      if i > 0 {
        BitOfOnes(n - 1, i - 1);
      }
    } else {
      BitOfComplement(n - 1, k - 1, if i > 0 then i - 1 else 0);
      var d: nat := m - Pow2(k - 1);
      assert Pow2(n) - 1 - Pow2(k) == 2 * d + 1;
      assert (2 * d + 1) / 2 == d;
    }
  }

  lemma {:induction false} BitOfOnes(n: nat, i: nat)
    ensures Bit(Pow2(n) - 1, i) <==> i < n
    decreases n
  {
    if n == 0 {
      BitOfZero(i);
    } else {
      var m: nat := Pow2(n - 1) - 1;
      assert Pow2(n) - 1 == 2 * m + 1;
      if i > 0 {
        BitOfOnes(n - 1, i - 1);
      }
    }
  }

  lemma {:induction false} OrBound(a: nat, b: nat, k: nat)
    requires a < Pow2(k) && b < Pow2(k)
    ensures Or(a, b) < Pow2(k)
    decreases k
  {
    if k > 0 {
      OrBound(a / 2, b / 2, k - 1);
    }
  }

  lemma {:induction false} AndBound(a: nat, b: nat)
    ensures And(a, b) <= a
    decreases a
  {
    if a != 0 {
      AndBound(a / 2, b / 2);
      assert (a % 2) * (b % 2) <= a % 2;
    }
  }

  /** A number with some digit is not zero. */
  lemma {:induction false} ZeroHasNoBit(n: nat, k: nat)
    requires forall i: nat :: Bit(n, i) ==> i == k
    ensures n != 0 <==> Bit(n, k)
  {
    if !Bit(n, k) {
      NoBitIsZero(n);
    } else {
      BitOfZero(k);
    }
  }

  lemma {:induction false} NoBitIsZero(n: nat)
    requires forall i: nat :: !Bit(n, i)
    ensures n == 0
  {
    if n != 0 {
      assert !Bit(n, 0);
      forall i: nat
        ensures !Bit(n / 2, i)
      {
        assert !Bit(n, i + 1);
      }
      NoBitIsZero(n / 2);
    }
  }
}
