/** Bitwise operations on bounded naturals, and how they act on the concatenation of two bit fields. */
module Bits {
  import opened Words

  function And(a: nat, b: nat, bits: nat): (r: nat)
    requires a < Pow2(bits) && b < Pow2(bits)
    ensures r < Pow2(bits)
  {
    if bits == 0 then 0 else 2 * And(a / 2, b / 2, bits - 1) + (a % 2) * (b % 2)
  }

  function Or(a: nat, b: nat, bits: nat): (r: nat)
    requires a < Pow2(bits) && b < Pow2(bits)
    ensures r < Pow2(bits)
  {
    if bits == 0 then 0 else 2 * Or(a / 2, b / 2, bits - 1) + if a % 2 + b % 2 == 0 then 0 else 1
  }

  function Not(a: nat, bits: nat): (r: nat)
    requires a < Pow2(bits)
    ensures r < Pow2(bits)
  {
    Pow2(bits) - 1 - a
  }

  lemma {:induction false} PowPositive(n: nat)
    ensures Pow2(n) > 0
  {
    if n > 0 { PowPositive(n - 1); }
  }

  lemma Byte8()
    ensures Pow2(8) == 256
  {
  }

  lemma Word32()
    ensures Pow2(32) == TWO_32
  {
    assert Pow2(8) == 256;
    assert Pow2(16) == 65536;
    assert Pow2(24) == 0x100_0000;
  }

  /** The two operands agree wherever the mask has a one. */
  predicate Agree(a: nat, b: nat, mask: nat, bits: nat)
    requires a < Pow2(bits) && b < Pow2(bits) && mask < Pow2(bits)
  {
    bits == 0 || ((mask % 2 == 1 ==> a % 2 == b % 2) && Agree(a / 2, b / 2, mask / 2, bits - 1))
  }

  lemma {:induction false} AgreeIffSameMasked(a: nat, b: nat, mask: nat, bits: nat)
    requires a < Pow2(bits) && b < Pow2(bits) && mask < Pow2(bits)
    ensures Agree(a, b, mask, bits) <==> And(a, mask, bits) == And(b, mask, bits)
  {
    if bits > 0 {
      AgreeIffSameMasked(a / 2, b / 2, mask / 2, bits - 1);
      LowBits(a, mask);
      LowBits(b, mask);
    }
  }

  lemma LowBits(a: nat, m: nat)
    ensures (a % 2) * (m % 2) == if m % 2 == 1 then a % 2 else 0
  {
  }

  /** The ternary compare of the hardware: no difference survives the bits not masked out. */
  lemma {:induction false} AgreeIffNoDifference(a: nat, b: nat, mask: nat, bits: nat)
    requires a < Pow2(bits) && b < Pow2(bits) && mask < Pow2(bits)
    ensures Agree(a, b, mask, bits) <==> And(Xor(a, b, bits), mask, bits) == 0
  {
    if bits > 0 {
      AgreeIffNoDifference(a / 2, b / 2, mask / 2, bits - 1);
      XorHalves(a, b, bits);
      LowBits(Xor(a, b, bits), mask);
      SumIsEven(a, b);
      hide Xor;
    }
  }

  lemma XorHalves(a: nat, b: nat, bits: nat)
    requires bits > 0 && a < Pow2(bits) && b < Pow2(bits)
    ensures Xor(a, b, bits) / 2 == Xor(a / 2, b / 2, bits - 1) && Xor(a, b, bits) % 2 == (a + b) % 2
  {
  }

  lemma SumIsEven(a: nat, b: nat)
    ensures (a + b) % 2 == 0 <==> a % 2 == b % 2
  {
  }

  /** Agreement of two concatenations is agreement of both parts. */
  lemma {:induction false} AgreeSplits(al: nat, ah: nat, bl: nat, bh: nat, ml: nat, mh: nat, low: nat, high: nat)
    requires al < Pow2(low) && bl < Pow2(low) && ml < Pow2(low)
    requires ah < Pow2(high) && bh < Pow2(high) && mh < Pow2(high)
    ensures Joined(al, ah, low) < Pow2(low + high) && Joined(bl, bh, low) < Pow2(low + high)
    ensures Joined(ml, mh, low) < Pow2(low + high)
    ensures Agree(Joined(al, ah, low), Joined(bl, bh, low), Joined(ml, mh, low), low + high)
         <==> Agree(al, bl, ml, low) && Agree(ah, bh, mh, high)
  {
    if low > 0 {
      AgreeSplits(al / 2, ah, bl / 2, bh, ml / 2, mh, low - 1, high);
      JoinedHalves(al, ah, low);
      JoinedHalves(bl, bh, low);
      JoinedHalves(ml, mh, low);
    }
  }

  function Joined(l: nat, h: nat, low: nat): nat { l + Pow2(low) * h }

  lemma JoinedHalves(l: nat, h: nat, low: nat)
    requires low > 0
    ensures Joined(l, h, low) / 2 == Joined(l / 2, h, low - 1) && Joined(l, h, low) % 2 == l % 2
  {
    var p := Pow2(low - 1) * h;
    assert Pow2(low) * h == 2 * p;
  }

  lemma {:induction false} AndZero(a: nat, bits: nat)
    requires a < Pow2(bits)
    ensures Pow2(bits) > 0 && And(a, 0, bits) == 0
  {
    if bits > 0 { AndZero(a / 2, bits - 1); }
  }

  lemma {:induction false} AndOnes(a: nat, bits: nat)
    requires a < Pow2(bits)
    ensures And(a, Pow2(bits) - 1, bits) == a
  {
    if bits > 0 {
      AndOnes(a / 2, bits - 1);
      assert (Pow2(bits) - 1) / 2 == Pow2(bits - 1) - 1 && (Pow2(bits) - 1) % 2 == 1;
    }
  }

  // ----- bytes and the words made of them

  function And8(a: uint8, b: uint8): uint8 { And(a, b, 8) }

  function And32(a: uint32, b: uint32): uint32 {
    Word32();
    And(a, b, 32)
  }

  /** One byte more on the low side. */
  lemma AgreeByte(al: uint8, ah: nat, bl: uint8, bh: nat, ml: uint8, mh: nat, high: nat)
    requires ah < Pow2(high) && bh < Pow2(high) && mh < Pow2(high)
    ensures al + 256 * ah < Pow2(8 + high) && bl + 256 * bh < Pow2(8 + high) && ml + 256 * mh < Pow2(8 + high)
    ensures Agree(al + 256 * ah, bl + 256 * bh, ml + 256 * mh, 8 + high)
         <==> And8(al, ml) == And8(bl, ml) && Agree(ah, bh, mh, high)
  {
    Byte8();
    hide Agree, And, Joined, Pow2;
    AgreeSplits(al, ah, bl, bh, ml, mh, 8, high);
    AgreeIffSameMasked(al, bl, ml, 8);
    JoinedByte(al, ah);
    JoinedByte(bl, bh);
    JoinedByte(ml, mh);
  }

  lemma JoinedByte(l: nat, h: nat)
    ensures Joined(l, h, 8) == l + 256 * h
  {
    Byte8();
    hide Pow2;
  }

  predicate BytesAgree(a: seq<uint8>, b: seq<uint8>, m: seq<uint8>, off: nat, n: nat)
    requires off + n <= |a| && off + n <= |b| && off + n <= |m|
  {
    forall i :: off <= i < off + n ==> And8(a[i], m[i]) == And8(b[i], m[i])
  }

  /** The value of `n` big-endian bytes. */
  function Horner(s: seq<uint8>, off: nat, n: nat): nat
    requires off + n <= |s|
  {
    if n == 0 then 0 else s[off + n - 1] + 256 * Horner(s, off, n - 1)
  }

  lemma HornerOfFour(s: seq<uint8>, off: nat)
    requires off + 4 <= |s|
    ensures Horner(s, off, 4) == ReadBe32(s, off)
  {
    var b0: int, b1: int := s[off], s[off + 1];
    assert Horner(s, off, 1) == b0;
    assert Horner(s, off, 2) == b1 + 256 * b0;
    assert Horner(s, off, 3) == s[off + 2] + 256 * Horner(s, off, 2);
  }

  lemma {:induction false} HornerAgrees(a: seq<uint8>, b: seq<uint8>, m: seq<uint8>, off: nat, n: nat)
    requires off + n <= |a| && off + n <= |b| && off + n <= |m|
    ensures Horner(a, off, n) < Pow2(8 * n) && Horner(b, off, n) < Pow2(8 * n) && Horner(m, off, n) < Pow2(8 * n)
    ensures Agree(Horner(a, off, n), Horner(b, off, n), Horner(m, off, n), 8 * n) <==> BytesAgree(a, b, m, off, n)
  {
    if n > 0 {
      HornerAgrees(a, b, m, off, n - 1);
      var k := off + n - 1;
      hide Agree, And8, Pow2;
      AgreeByte(a[k], Horner(a, off, n - 1), b[k], Horner(b, off, n - 1), m[k], Horner(m, off, n - 1), 8 * (n - 1));
      assert 8 + 8 * (n - 1) == 8 * n;
    }
  }

  /** Comparing four big-endian bytes under a mask is comparing the 32-bit values under the 32-bit mask. */
  lemma MaskedWord(a: seq<uint8>, b: seq<uint8>, m: seq<uint8>, off: nat)
    requires off + 4 <= |a| && off + 4 <= |b| && off + 4 <= |m|
    ensures BytesAgree(a, b, m, off, 4)
         <==> And32(ReadBe32(a, off), ReadBe32(m, off)) == And32(ReadBe32(b, off), ReadBe32(m, off))
  {
    HornerOfFour(a, off);
    HornerOfFour(b, off);
    HornerOfFour(m, off);
    HornerAgrees(a, b, m, off, 4);
    Word32();
    AgreeIffSameMasked(ReadBe32(a, off), ReadBe32(b, off), ReadBe32(m, off), 32);
    hide Agree, And, Horner, ReadBe32, Pow2;
  }

  // ----- bit by bit

  /** Bit `i` of a number. */
  function Bit(v: nat, i: nat): nat { if i == 0 then v % 2 else Bit(v / 2, i - 1) }

  lemma {:induction false} BitIsBinary(v: nat, i: nat)
    ensures Bit(v, i) < 2
  {
    if i > 0 { BitIsBinary(v / 2, i - 1); }
  }

  /** Each operation acts on every bit by itself. */
  lemma {:induction false} BitOfAnd(a: nat, b: nat, bits: nat, i: nat)
    requires a < Pow2(bits) && b < Pow2(bits) && i < bits
    ensures Bit(And(a, b, bits), i) == 1 <==> Bit(a, i) == 1 && Bit(b, i) == 1
  {
    LowBits(a, b);
    var low := (a % 2) * (b % 2);
    Doubled(And(a / 2, b / 2, bits - 1), low);
    if i > 0 { BitOfAnd(a / 2, b / 2, bits - 1, i - 1); }
  }

  lemma {:induction false} BitOfOr(a: nat, b: nat, bits: nat, i: nat)
    requires a < Pow2(bits) && b < Pow2(bits) && i < bits
    ensures Bit(Or(a, b, bits), i) == 1 <==> Bit(a, i) == 1 || Bit(b, i) == 1
  {
    Doubled(Or(a / 2, b / 2, bits - 1), if a % 2 + b % 2 == 0 then 0 else 1);
    if i > 0 { BitOfOr(a / 2, b / 2, bits - 1, i - 1); }
  }

  lemma {:induction false} BitOfXor(a: nat, b: nat, bits: nat, i: nat)
    requires a < Pow2(bits) && b < Pow2(bits) && i < bits
    ensures Bit(Xor(a, b, bits), i) == 1 <==> Bit(a, i) != Bit(b, i)
  {
    Doubled(Xor(a / 2, b / 2, bits - 1), (a + b) % 2);
    SumIsEven(a, b);
    BitIsBinary(a, i);
    BitIsBinary(b, i);
    if i > 0 { BitOfXor(a / 2, b / 2, bits - 1, i - 1); }
  }

  lemma Doubled(h: nat, b: nat)
    requires b < 2
    ensures (2 * h + b) / 2 == h && (2 * h + b) % 2 == b
  {
  }
}
