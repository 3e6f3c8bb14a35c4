/** The nmbs_bitfield macros: coils packed eight to a byte, the lowest in the least significant bit. */
module Bitfields {
  import opened Words
  import opened Bits

  /** The bit at position b. */
  predicate BitAt(bf: seq<byte>, b: nat)
    requires b / 8 < |bf|
  {
    Bit(bf[b / 8], b % 8)
  }

  lemma EightDigits()
    ensures Pow2(8) == 0x100
  {}

  lemma DigitInByte(k: nat)
    requires k < 8
    ensures Pow2(k) < 0x100
  {
    BitOfComplement(8, k, 0);
    EightDigits();
  }

  method BitfieldRead(bf: array<byte>, b: nat) returns (v: bool)
    requires b / 8 < bf.Length
    ensures v == BitAt(bf[..], b)
  {
    var k := b % 8;
    v := And(bf[b / 8], Pow2(k)) != 0;
    forall i: nat
      ensures Bit(And(bf[b / 8], Pow2(k)), i) ==> i == k
    {
      BitOfAnd(bf[b / 8], Pow2(k), i);
      BitOfPow2(k, i);
    }
    ZeroHasNoBit(And(bf[b / 8], Pow2(k)), k);
    BitOfAnd(bf[b / 8], Pow2(k), k);
    BitOfPow2(k, k);
  }

  /** One byte of a bitfield with one bit changed. */
  function SetBit(n: byte, k: nat): byte
    requires k < 8
  {
    DigitInByte(k);
    EightDigits();
    OrBound(n, Pow2(k), 8);
    Or(n, Pow2(k))
  }

  function UnsetBit(n: byte, k: nat): byte
    requires k < 8
  {
    DigitInByte(k);
    AndBound(n, 0xFF - Pow2(k));
    And(n, 0xFF - Pow2(k))
  }

  lemma SetBitDigits(n: byte, k: nat, i: nat)
    requires k < 8
    ensures Bit(SetBit(n, k), i) <==> i == k || Bit(n, i)
  {
    BitOfOr(n, Pow2(k), i);
    BitOfPow2(k, i);
  }

  lemma UnsetBitDigits(n: byte, k: nat, i: nat)
    requires k < 8 && i < 8
    ensures Bit(UnsetBit(n, k), i) <==> i != k && Bit(n, i)
  {
    DigitInByte(k);
    EightDigits();
    BitOfAnd(n, 0xFF - Pow2(k), i);
    BitOfComplement(8, k, i);
  }

  /** nmbs_bitfield_write, of which _set and _unset are the two branches: one bit changes, all others stay. */
  method BitfieldWrite(bf: array<byte>, b: nat, v: bool)
    requires b / 8 < bf.Length
    modifies bf
    ensures forall i :: 0 <= i < 8 * bf.Length ==> (BitAt(bf[..], i) <==> if i == b then v else BitAt(old(bf[..]), i))
  {
    var k := b % 8;
    ghost var before := bf[..];
    if v {
      bf[b / 8] := SetBit(bf[b / 8], k);
    } else {
      bf[b / 8] := UnsetBit(bf[b / 8], k);
    }
    forall i | 0 <= i < 8 * bf.Length
      ensures BitAt(bf[..], i) <==> if i == b then v else BitAt(before, i)
    {
      if i / 8 == b / 8 {
        SetBitDigits(before[b / 8], k, i % 8);
        UnsetBitDigits(before[b / 8], k, i % 8);
      }
    }
  }

  method BitfieldReset(bf: array<byte>)
    modifies bf
    ensures forall i :: 0 <= i < 8 * bf.Length ==> !BitAt(bf[..], i)
  {
    for j := 0 to bf.Length
      invariant forall i :: 0 <= i < j ==> bf[i] == 0
    {
      bf[j] := 0;
    }
    forall i | 0 <= i < 8 * bf.Length
      ensures !BitAt(bf[..], i)
    {
      BitOfZero(i % 8);
    }
  }

  // ----- packing

  /** The number whose digits are k bits from a position on; bits behind the end count as 0. */
  function PackFrom(bits: seq<bool>, from: nat, k: nat): (n: nat)
    ensures n < Pow2(k)
    decreases k
  {
    if k == 0 then 0
    else (if from < |bits| && bits[from] then 1 else 0) + 2 * PackFrom(bits, from + 1, k - 1)
  }

  lemma {:induction false} PackFromDigits(bits: seq<bool>, from: nat, k: nat, i: nat)
    requires i < k
    ensures Bit(PackFrom(bits, from, k), i) <==> from + i < |bits| && bits[from + i]
    decreases k
  {
    var rest := PackFrom(bits, from + 1, k - 1);
    if i > 0 {
      PackFromDigits(bits, from + 1, k - 1, i - 1);
    }
  }

  /** n bytes that hold the bits in their order. */
  function Pack(bits: seq<bool>, n: nat): (bf: seq<byte>)
    ensures |bf| == n
  {
    EightDigits();
    seq(n, j requires 0 <= j < n => PackByte(bits, j))
  }

  function PackByte(bits: seq<bool>, j: nat): byte {
    EightDigits();
    PackFrom(bits, 8 * j, 8)
  }

  function Unpack(bf: seq<byte>, count: nat): (bits: seq<bool>)
    requires count <= 8 * |bf|
    ensures |bits| == count
  {
    seq(count, i requires 0 <= i < count => BitAt(bf, i))
  }

  /** What was packed is read back bit by bit; behind it there are only zeros. */
  lemma PackedBit(bits: seq<bool>, n: nat, i: nat)
    requires i / 8 < n
    ensures BitAt(Pack(bits, n), i) <==> i < |bits| && bits[i]
  {
    var j := i / 8;
    assert Pack(bits, n)[j] == PackByte(bits, j);
    PackFromDigits(bits, 8 * j, 8, i % 8);
  }

  lemma UnpackPacked(bits: seq<bool>, n: nat)
    requires |bits| <= 8 * n
    ensures Unpack(Pack(bits, n), |bits|) == bits
  {
    forall i | 0 <= i < |bits|
      ensures Unpack(Pack(bits, n), |bits|)[i] == bits[i]
    {
      PackedBit(bits, n, i);
    }
  }

  /** What bit i adds to its byte, behind the end nothing. */
  function Digit(bits: seq<bool>, i: nat): nat {
    if i < |bits| && bits[i] then 1 else 0
  }

  /** Eight bits make a byte, the first of them as its least significant digit. */
  lemma PackedByte(bits: seq<bool>, n: nat, j: nat)
    requires j < n
    ensures var b := 8 * j;
      Pack(bits, n)[j]
      == Digit(bits, b) + 2 * Digit(bits, b + 1) + 4 * Digit(bits, b + 2) + 8 * Digit(bits, b + 3)
         + 16 * Digit(bits, b + 4) + 32 * Digit(bits, b + 5) + 64 * Digit(bits, b + 6) + 128 * Digit(bits, b + 7)
  {
    hide Digit;
    var b := 8 * j;
    FourOf(bits, b, 8);
    FourOf(bits, b + 4, 4);
    assert PackFrom(bits, b + 8, 0) == 0;
    assert Pack(bits, n)[j] == PackFrom(bits, b, 8);
  }

  lemma FourOf(bits: seq<bool>, from: nat, k: nat)
    requires k >= 4
    ensures PackFrom(bits, from, k)
         == Digit(bits, from) + 2 * Digit(bits, from + 1) + 4 * Digit(bits, from + 2) + 8 * Digit(bits, from + 3)
            + 16 * PackFrom(bits, from + 4, k - 4)
  {
    hide Digit;
    OneOf(bits, from, k);
    OneOf(bits, from + 1, k - 1);
    OneOf(bits, from + 2, k - 2);
    OneOf(bits, from + 3, k - 3);
  }

  lemma OneOf(bits: seq<bool>, from: nat, k: nat)
    requires k >= 1
    ensures PackFrom(bits, from, k) == Digit(bits, from) + 2 * PackFrom(bits, from + 1, k - 1)
  {}
}
