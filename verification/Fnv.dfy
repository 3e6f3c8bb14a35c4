/** hash_key of ht.c: the 64-bit FNV-1a hash of a NUL-terminated string. */
module Fnv {
  import opened Words
  import opened Bits

  const MODULUS := 0x1_0000_0000_0000_0000
  const FNV_OFFSET := 14695981039346656037
  const FNV_PRIME := 1099511628211

  /** A character before the terminating NUL. */
  type Char = b: byte | b != 0 witness 1

  type u64 = x: int | 0 <= x < MODULUS

  function Mix(h: u64, c: byte): u64 {
    (Xor(h, c) * FNV_PRIME) % MODULUS
  }

  function HashFrom(h: u64, key: seq<Char>): u64 {
    if key == [] then h else Mix(HashFrom(h, key[..|key| - 1]), key[|key| - 1])
  }

  function Hash(key: seq<Char>): u64 {
    HashFrom(FNV_OFFSET, key)
  }

  method HashKey(key: seq<Char>) returns (hash: u64)
    ensures hash == Hash(key)
  {
    hash := FNV_OFFSET;
    for i := 0 to |key|
      invariant hash == HashFrom(FNV_OFFSET, key[..i])
    {
      assert key[..i + 1][..i] == key[..i];
      hash := (Xor(hash, key[i]) * FNV_PRIME) % MODULUS;
    }
    assert key[..|key|] == key;
  }

  // ----- the inverse of the prime modulo 2^64

  const INVERSE := 14886173955864302971
  const CARRY := 887285111055

  lemma MultiplyInvertible(a: u64)
    ensures (a * FNV_PRIME) % MODULUS * INVERSE % MODULUS == a
  {
    assert FNV_PRIME * INVERSE == 1 + MODULUS * CARRY;
    var q, r := a * FNV_PRIME / MODULUS, (a * FNV_PRIME) % MODULUS;
    var k := CARRY * a - q * INVERSE;
    assert r * INVERSE == k * MODULUS + a;
    RemainderUnique(r * INVERSE, MODULUS, k, a);
  }

  lemma Xor64(a: u64, b: u64)
    ensures Xor(a, b) < MODULUS
  {
    assert Pow2(8) == 0x100;
    assert Pow2(16) == 0x1_0000;
    assert Pow2(24) == 0x100_0000;
    assert Pow2(32) == 0x1_0000_0000;
    assert Pow2(40) == 0x100_0000_0000;
    assert Pow2(48) == 0x1_0000_0000_0000;
    assert Pow2(56) == 0x100_0000_0000_0000;
    assert Pow2(64) == MODULUS;
    XorBound(a, b, 64);
  }

  lemma MixInjective(g: u64, h: u64, c: byte, d: byte)
    requires Mix(g, c) == Mix(h, d)
    ensures Xor(g, c) == Xor(h, d)
  {
    Xor64(g, c);
    Xor64(h, d);
    MultiplyInvertible(Xor(g, c));
    MultiplyInvertible(Xor(h, d));
  }

  lemma {:induction false} HashFromInjective(g: u64, h: u64, key: seq<Char>)
    requires HashFrom(g, key) == HashFrom(h, key)
    ensures g == h
  {
    if key != [] {
      var m, c := key[..|key| - 1], key[|key| - 1];
      MixInjective(HashFrom(g, m), HashFrom(h, m), c, c);
      XorInjective(HashFrom(g, m), HashFrom(h, m), c);
      HashFromInjective(g, h, m);
    }
  }

  lemma {:induction false} HashFromConcat(h: u64, s: seq<Char>, t: seq<Char>)
    ensures HashFrom(h, s + t) == HashFrom(HashFrom(h, s), t)
  {
    if t == [] {
      assert s + t == s;
    } else {
      var m := t[..|t| - 1];
      HashFromConcat(h, s, m);
      assert (s + t)[..|s + t| - 1] == s + m;
    }
  }

  lemma HashAround(key: seq<Char>, i: nat)
    requires i < |key|
    ensures Hash(key) == HashFrom(Mix(Hash(key[..i]), key[i]), key[i + 1..])
  {
    assert key == key[..i + 1] + key[i + 1..];
    assert key[..i + 1][..i] == key[..i];
    HashFromConcat(FNV_OFFSET, key[..i + 1], key[i + 1..]);
  }

  /** Keys of one length that differ in exactly one character have different hashes. */
  lemma OneCharacterSeparates(k: seq<Char>, l: seq<Char>, i: nat)
    requires |k| == |l| && i < |k|
    requires k[i] != l[i]
    requires forall j :: 0 <= j < |k| && j != i ==> k[j] == l[j]
    ensures Hash(k) != Hash(l)
  {
    if Hash(k) == Hash(l) {
      HashAround(k, i);
      HashAround(l, i);
      assert k[..i] == l[..i] && k[i + 1..] == l[i + 1..];
      var h := Hash(k[..i]);
      HashFromInjective(Mix(h, k[i]), Mix(h, l[i]), k[i + 1..]);
      MixInjective(h, h, k[i], l[i]);
      XorSymmetric(h, k[i]);
      XorSymmetric(h, l[i]);
      XorInjective(k[i], l[i], h);
    }
  }

  // ----- known values

  /** A character changes the last eight digits alone. */
  lemma XorLowByte(h: nat, c: byte)
    ensures Xor(h, c) == h / 256 * 256 + Xor(h % 256, c)
  {
    XorZero(h / 256);
    XorLowDigits(h / 256, h % 256, c, 8);
  }

  lemma {:induction false} XorLowDigits(high: nat, low: nat, c: nat, k: nat)
    requires low < Pow2(k) && c < Pow2(k)
    ensures Xor(high * Pow2(k) + low, c) == high * Pow2(k) + Xor(low, c)
    decreases k
  {
    hide Xor;
    XorZero(high);
    if k == 0 {
      XorZero(0);
    } else {
      var q := high * Pow2(k - 1);
      Halved(high, low, k);
      XorLowDigits(high, low / 2, c / 2, k - 1);
      XorDigits(2 * q + low, c);
      XorDigits(low, c);
      SameHalfAndDigit(Xor(2 * q + low, c), 2 * q + Xor(low, c));
    }
  }

  lemma Halved(high: nat, low: nat, k: nat)
    requires k > 0
    ensures var q := high * Pow2(k - 1);
      high * Pow2(k) == 2 * q && (2 * q + low) / 2 == q + low / 2 && (2 * q + low) % 2 == low % 2
  {
    var p := Pow2(k - 1);
    assert high * (2 * p) == 2 * (high * p);
  }

  lemma Low1()
    ensures Xor(0x25, 0x66) == 0x43
  {
    assert Xor(0, 0) == 0 && Xor(0, 1) == 1 && Xor(1, 3) == 2 && Xor(2, 6) == 4;
    assert Xor(4, 12) == 8 && Xor(9, 25) == 16 && Xor(18, 51) == 33;
  }

  lemma Low2()
    ensures Xor(0xD9, 0x6F) == 0xB6
  {
    assert Xor(1, 0) == 1 && Xor(3, 1) == 2 && Xor(6, 3) == 5 && Xor(13, 6) == 11;
    assert Xor(27, 13) == 22 && Xor(54, 27) == 45 && Xor(108, 55) == 91;
  }

  lemma Low3()
    ensures Xor(0x42, 0x6F) == 0x2D
  {
    assert Xor(0, 0) == 0 && Xor(1, 1) == 0 && Xor(2, 3) == 1 && Xor(4, 6) == 2;
    assert Xor(8, 13) == 5 && Xor(16, 27) == 11 && Xor(33, 55) == 22;
  }

  lemma Low4()
    ensures Xor(0x77, 0x62) == 0x15
  {
    assert Xor(0, 0) == 0 && Xor(1, 1) == 0 && Xor(3, 3) == 0 && Xor(7, 6) == 1;
    assert Xor(14, 12) == 2 && Xor(29, 24) == 5 && Xor(59, 49) == 10;
  }

  lemma Low5()
    ensures Xor(0xAF, 0x61) == 0xCE
  {
    assert Xor(1, 0) == 1 && Xor(2, 1) == 3 && Xor(5, 3) == 6 && Xor(10, 6) == 12;
    assert Xor(21, 12) == 25 && Xor(43, 24) == 51 && Xor(87, 48) == 103;
  }

  lemma Low6()
    ensures Xor(0x0A, 0x72) == 0x78
  {
    assert Xor(0, 0) == 0 && Xor(0, 1) == 1 && Xor(0, 3) == 3 && Xor(0, 7) == 7;
    assert Xor(1, 14) == 15 && Xor(2, 28) == 30 && Xor(5, 57) == 60;
  }

  lemma LowOfA()
    ensures Xor(0x25, 0x61) == 0x44
  {
    assert Xor(0, 0) == 0 && Xor(0, 1) == 1 && Xor(1, 3) == 2 && Xor(2, 6) == 4;
    assert Xor(4, 12) == 8 && Xor(9, 24) == 17 && Xor(18, 48) == 34;
  }

  /** Mixing in one character, with the quotient of the product by 2^64 at hand. */
  lemma MixByQuotient(h: u64, c: byte, x: nat, q: nat)
    requires Xor(h, c) == x && 0 <= x * FNV_PRIME - q * MODULUS < MODULUS
    ensures Mix(h, c) == x * FNV_PRIME - q * MODULUS
  {
    RemainderUnique(x * FNV_PRIME, MODULUS, q, x * FNV_PRIME - q * MODULUS);
  }

  lemma Mix1()
    ensures Mix(0xCBF29CE484222325, 0x66) == 0xAF63DB4C8601EAD9
  {
    hide Xor, Mix;
    Low1();
    XorLowByte(0xCBF29CE484222325, 0x66);
    MixByQuotient(0xCBF29CE484222325, 0x66, 0xCBF29CE484222343, 875948729822);
  }

  lemma Mix2()
    ensures Mix(0xAF63DB4C8601EAD9, 0x6F) == 0x8985907B541D342
  {
    hide Xor, Mix;
    Low2();
    XorLowByte(0xAF63DB4C8601EAD9, 0x6F);
    MixByQuotient(0xAF63DB4C8601EAD9, 0x6F, 0xAF63DB4C8601EAB6, 753294593456);
  }

  lemma Mix3()
    ensures Mix(0x8985907B541D342, 0x6F) == 0xDCB27518FED9D577
  {
    hide Xor, Mix;
    Low3();
    XorLowByte(0x8985907B541D342, 0x6F);
    MixByQuotient(0x8985907B541D342, 0x6F, 0x8985907B541D32D, 36915709891);
  }

  lemma Mix4()
    ensures Mix(0xDCB27518FED9D577, 0x62) == 0xDD120E790C2512AF
  {
    hide Xor, Mix;
    Low4();
    XorLowByte(0xDCB27518FED9D577, 0x62);
    MixByQuotient(0xDCB27518FED9D577, 0x62, 0xDCB27518FED9D515, 947886824053);
  }

  lemma Mix5()
    ensures Mix(0xDD120E790C2512AF, 0x61) == 0xCAC165AFA2FEF40A
  {
    hide Xor, Mix;
    Low5();
    XorLowByte(0xDD120E790C2512AF, 0x61);
    MixByQuotient(0xDD120E790C2512AF, 0x61, 0xDD120E790C2512CE, 949490711171);
  }

  lemma Mix6()
    ensures Mix(0xCAC165AFA2FEF40A, 0x72) == 0x85944171F73967E8
  {
    hide Xor, Mix;
    Low6();
    XorLowByte(0xCAC165AFA2FEF40A, 0x72);
    MixByQuotient(0xCAC165AFA2FEF40A, 0x72, 0xCAC165AFA2FEF478, 870828060923);
  }

  lemma HashAppend(key: seq<Char>, c: Char)
    ensures Hash(key + [c]) == Mix(Hash(key), c)
  {
    assert (key + [c])[..|key|] == key;
  }

  lemma HashOfSix(a: Char, b: Char, c: Char, d: Char, e: Char, f: Char)
    ensures Hash([a, b, c, d, e, f]) == Mix(Mix(Mix(Mix(Mix(Mix(FNV_OFFSET, a), b), c), d), e), f)
    ensures Hash([a]) == Mix(FNV_OFFSET, a)
  {
    hide Mix;
    HashAppend([], a);
    HashAppend([a], b);
    HashAppend([a, b], c);
    HashAppend([a, b, c], d);
    HashAppend([a, b, c, d], e);
    HashAppend([a, b, c, d, e], f);
    assert [] + [a] == [a] && [a] + [b] == [a, b] && [a, b] + [c] == [a, b, c];
    assert [a, b, c] + [d] == [a, b, c, d] && [a, b, c, d] + [e] == [a, b, c, d, e];
    assert [a, b, c, d, e] + [f] == [a, b, c, d, e, f];
  }

  lemma MixOfA()
    ensures Mix(0xCBF29CE484222325, 0x61) == 0xAF63DC4C8601EC8C
  {
    hide Xor, Mix;
    LowOfA();
    XorLowByte(0xCBF29CE484222325, 0x61);
    MixByQuotient(0xCBF29CE484222325, 0x61, 0xCBF29CE484222344, 875948729822);
  }

  /** Published hashes: of no characters, of "a" and of "foobar". */
  lemma KnownHashes()
    ensures Hash([]) == 0xCBF29CE484222325
    ensures Hash([0x61]) == 0xAF63DC4C8601EC8C
    ensures Hash([0x66, 0x6F, 0x6F, 0x62, 0x61, 0x72]) == 0x85944171F73967E8
  {
    hide Mix;
    MixOfA();
    HashOfSix(0x61, 0x61, 0x61, 0x61, 0x61, 0x61);
    Mix1();
    Mix2();
    Mix3();
    Mix4();
    Mix5();
    Mix6();
    HashOfSix(0x66, 0x6F, 0x6F, 0x62, 0x61, 0x72);
  }
}
