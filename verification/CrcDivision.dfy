/** The CRC32 of rtl/mau/mau_hash.sv against its definition (clause 3.2.9 of IEEE 802.3): the remainder of the message,
    as a polynomial over two elements, on long division by the generator. */
module CrcDivision {
  import opened MauHash

  // ----- the definition, on bits alone

  type Bits = seq<bool>

  predicate Has(b: bv8, mask: bv8) { b & mask == mask }

  /** The bits of a byte in the order of transmission, the least significant first. */
  function ByteBits(b: bv8): (r: Bits)
    ensures |r| == 8
  {
    [Has(b, 1), Has(b, 2), Has(b, 4), Has(b, 8), Has(b, 16), Has(b, 32), Has(b, 64), Has(b, 128)]
  }

  function MessageBits(data: seq<bv8>): (r: Bits)
    ensures |r| == 8 * |data|
  {
    if data == [] then [] else ByteBits(data[0]) + MessageBits(data[1..])
  }

  /** The coefficients of the generator from degree 31 down to 0; that of degree 32 is one as well. */
  function Generator(): (r: Bits)
    ensures |r| == 32
  {
    seq(32, i requires 0 <= i < 32 => 31 - i in {26, 23, 22, 16, 12, 11, 10, 8, 7, 5, 4, 2, 1, 0})
  }

  /** The sum of a dividend and a polynomial of 32 coefficients at its front. */
  function PlusFront(d: Bits, g: Bits): (r: Bits)
    requires |g| == 32 <= |d|
    ensures |r| == |d|
  {
    seq(|d|, i requires 0 <= i < |d| => if i < 32 then d[i] != g[i] else d[i])
  }

  /** Long division by the generator, highest degree first: while more than 32 coefficients are left the first one, if
      it is one, takes the generator away, and is gone. */
  function Remainder(d: Bits): (r: Bits)
    requires |d| >= 32
    ensures |r| == 32
    decreases |d|
  {
    if |d| == 32 then d
    else if d[0] then Remainder(PlusFront(d[1..], Generator()))
    else Remainder(d[1..])
  }

  function Zeros(): Bits { seq(32, _ => false) }

  function Ones(): Bits { seq(32, _ => true) }

  /** The check sequence: the message with 32 zeros behind it and its first 32 bits complemented, divided, and the
      remainder complemented. */
  function CheckBits(message: Bits): Bits { PlusFront(Remainder(PlusFront(message + Zeros(), Ones())), Ones()) }

  // ----- the register as the first 32 coefficients

  function BitsOf(c: bv32, n: nat): (r: Bits)
    ensures |r| == n
    decreases n
  {
    if n == 0 then [] else [Odd(c)] + BitsOf(Half(c), n - 1)
  }

  function Halves(c: bv32, n: nat): bv32
    decreases n
  {
    if n == 0 then c else Halves(Half(c), n - 1)
  }

  lemma {:induction false} BitsOfHalf(c: bv32, n: nat)
    ensures BitsOf(Half(c), n) == BitsOf(c, n + 1)[1..]
    ensures BitsOf(c, n + 1) == BitsOf(c, n) + [Odd(Halves(c, n))]
    decreases n
  {
    hide Odd, Half;
    if n > 0 { BitsOfHalf(Half(c), n - 1); }
  }

  lemma EightHalves(c: bv32)
    ensures Half(Half(Half(Half(Half(Half(Half(Half(c)))))))) == OtherBytes(c)
  {
  }

  lemma HalvesByEight(c: bv32, n: nat)
    ensures Halves(c, n + 8) == Halves(OtherBytes(c), n)
  {
    EightHalves(c);
    hide Half;
    assert Halves(c, n + 8) == Halves(Half(c), n + 7) == Halves(Half(Half(c)), n + 6);
    var d := Half(Half(c));
    assert Halves(d, n + 6) == Halves(Half(d), n + 5) == Halves(Half(Half(d)), n + 4);
    var e := Half(Half(d));
    assert Halves(e, n + 4) == Halves(Half(e), n + 3) == Halves(Half(Half(e)), n + 2);
    var f := Half(Half(e));
    assert Halves(f, n + 2) == Halves(Half(f), n + 1) == Halves(Half(Half(f)), n);
  }

  lemma ThirtyTwoHalves(c: bv32)
    ensures !Odd(Halves(c, 32))
  {
    hide Half, Odd, OtherBytes;
    HalvesByEight(c, 24);
    HalvesByEight(OtherBytes(c), 16);
    HalvesByEight(OtherBytes(OtherBytes(c)), 8);
    HalvesByEight(OtherBytes(OtherBytes(OtherBytes(c))), 0);
    AllShiftedOut(c);
    NoHalves(OtherBytes(OtherBytes(OtherBytes(OtherBytes(c)))));
    hide Halves;
    ZeroIsEven();
  }

  lemma AllShiftedOut(c: bv32)
    ensures OtherBytes(OtherBytes(OtherBytes(OtherBytes(c)))) == 0
  {
  }

  lemma NoHalves(c: bv32)
    ensures Halves(c, 0) == c
  {
  }

  lemma ZeroIsEven()
    ensures !Odd(0)
  {
  }

  /** Halving the register moves every coefficient up by one degree. */
  lemma HalfMovesUp(c: bv32)
    ensures BitsOf(Half(c), 32) == BitsOf(c, 32)[1..] + [false]
  {
    hide Odd, Half;
    BitsOfHalf(c, 32);
    BitsOfHalf(c, 31);
    BitsOfHalf(Half(c), 31);
    ThirtyTwoHalves(c);
    LastBit(c);
  }

  lemma LastBit(c: bv32)
    ensures Halves(Half(c), 31) == Halves(c, 32)
  {
  }

  lemma {:induction false} BitsOfXor(a: bv32, b: bv32, n: nat)
    ensures forall i :: 0 <= i < n ==> BitsOf(Xor(a, b), n)[i] == (BitsOf(a, n)[i] != BitsOf(b, n)[i])
    decreases n
  {
    hide Odd, Half, Xor;
    if n > 0 {
      OddOfXor(a, b);
      HalfOfXor(a, b);
      BitsOfXor(Half(a), Half(b), n - 1);
    }
  }

  lemma BitsStep(c: bv32, n: nat)
    ensures BitsOf(c, n + 1) == [Odd(c)] + BitsOf(Half(c), n)
  {
  }

  lemma FourBits(c: bv32, n: nat)
    ensures BitsOf(c, n + 4) ==
      [Odd(c), Odd(Half(c)), Odd(Half(Half(c))), Odd(Half(Half(Half(c))))] + BitsOf(Half(Half(Half(Half(c)))), n)
  {
    hide Odd, Half, BitsOf;
    BitsStep(c, n + 3);
    BitsStep(Half(c), n + 2);
    BitsStep(Half(Half(c)), n + 1);
    BitsStep(Half(Half(Half(c))), n);
  }

  /** The coefficient that stands `k` halvings up. */
  predicate OddAt(c: bv32, k: nat) { Odd(Halves(c, k)) }

  lemma EightBits(c: bv32, n: nat)
    ensures BitsOf(c, n + 8) ==
      [OddAt(c, 0), OddAt(c, 1), OddAt(c, 2), OddAt(c, 3), OddAt(c, 4), OddAt(c, 5), OddAt(c, 6), OddAt(c, 7)]
        + BitsOf(OtherBytes(c), n)
  {
    hide Odd, Half, BitsOf, OtherBytes;
    FourHalves(c);
    var x := Half(Half(Half(Half(c))));
    FourHalves(x);
    HalvesCompose(c);
    FourBits(c, n + 4);
    FourBits(x, n);
    EightHalves(c);
    FoursJoin(OddAt(c, 0), OddAt(c, 1), OddAt(c, 2), OddAt(c, 3), OddAt(c, 4), OddAt(c, 5), OddAt(c, 6), OddAt(c, 7),
              BitsOf(OtherBytes(c), n));
    hide Halves;
  }

  lemma FoursJoin(a: bool, b: bool, c: bool, d: bool, e: bool, f: bool, g: bool, h: bool, rest: Bits)
    ensures [a, b, c, d] + ([e, f, g, h] + rest) == [a, b, c, d, e, f, g, h] + rest
  {
  }

  lemma FourHalves(c: bv32)
    ensures Halves(c, 0) == c && Halves(c, 1) == Half(c) && Halves(c, 2) == Half(Half(c))
    ensures Halves(c, 3) == Half(Half(Half(c))) && Halves(c, 4) == Half(Half(Half(Half(c))))
  {
  }

  lemma HalvesCompose(c: bv32)
    ensures var x := Half(Half(Half(Half(c))));
      Halves(c, 4) == Halves(x, 0) && Halves(c, 5) == Halves(x, 1)
      && Halves(c, 6) == Halves(x, 2) && Halves(c, 7) == Halves(x, 3)
  {
    hide Half;
  }

  lemma FourOf(c: bv32, n: nat, a: bool, b: bool, d: bool, e: bool, rest: bv32)
    requires c & 1 == (if a then 1 else 0) && c & 2 == (if b then 2 else 0)
    requires c & 4 == (if d then 4 else 0) && c & 8 == (if e then 8 else 0) && rest == c >> 4
    ensures BitsOf(c, n + 4) == [a, b, d, e] + BitsOf(rest, n)
  {
    FourBits(c, n);
    assert (c >> 1) & 1 == (c & 2) >> 1 && (c >> 1 >> 1) & 1 == (c & 4) >> 2;
    assert (c >> 1 >> 1 >> 1) & 1 == (c & 8) >> 3 && c >> 1 >> 1 >> 1 >> 1 == c >> 4;
    hide BitsOf;
  }

  /** The feedback constant of the register is the generator. */
  lemma PolyIsGenerator()
    ensures BitsOf(CRC_POLY, 32) == Generator()
  {
    hide BitsOf, Odd, Half;
    FourOf(0xEDB88320, 28, false, false, false, false, 0xEDB8832);
    FourOf(0xEDB8832, 24, false, true, false, false, 0xEDB883);
    FourOf(0xEDB883, 20, true, true, false, false, 0xEDB88);
    FourOf(0xEDB88, 16, false, false, false, true, 0xEDB8);
    FourOf(0xEDB8, 12, false, false, false, true, 0xEDB);
    FourOf(0xEDB, 8, true, true, false, true, 0xED);
    FourOf(0xED, 4, true, false, true, true, 0xE);
    FourOf(0xE, 0, false, true, true, true, 0);
    assert BitsOf(0, 0) == [] by { NoBits(0); }
  }

  lemma NoBits(c: bv32)
    ensures BitsOf(c, 0) == []
  {
  }

  // ----- one bit fed to the register is one step of the division

  function Bit(b: bool): bv32 { if b then 1 else 0 }

  function FeedBits(c: bv32, bits: Bits): bv32
    decreases |bits|
  {
    if bits == [] then c else FeedBits(Shift(Xor(c, Bit(bits[0]))), bits[1..])
  }

  lemma BitAlone(b: bool)
    ensures Odd(Bit(b)) == b && Half(Bit(b)) == 0
  {
  }

  /** The register after one bit: its coefficients moved up, and the generator added if the one moved out was one. */
  lemma OneBit(c: bv32, b: bool)
    ensures var r, s := BitsOf(c, 32), BitsOf(Shift(Xor(c, Bit(b))), 32);
      && (r[0] == b ==> s == r[1..] + [false])
      && (r[0] != b ==> s == PlusFront(r[1..] + [false], Generator()))
  {
    hide Odd, Half, Xor, BitsOf, Generator;
    BitAlone(b);
    OddOfXor(c, Bit(b));
    HalfOfXor(c, Bit(b));
    XorLaws(Half(c), 0, 0);
    HalfMovesUp(c);
    FirstBit(c);
    PolyIsGenerator();
    BitsOfXor(Half(c), CRC_POLY, 32);
  }

  lemma FirstBit(c: bv32)
    ensures BitsOf(c, 32)[0] == Odd(c)
  {
  }

  lemma {:induction false} FeedIsDivision(c: bv32, m: Bits)
    ensures BitsOf(FeedBits(c, m), 32) == Remainder(PlusFront(m + Zeros(), BitsOf(c, 32)))
    decreases |m|
  {
    hide Shift, Xor, BitsOf, Generator;
    var r := BitsOf(c, 32);
    var d := PlusFront(m + Zeros(), r);
    if m == [] {
      assert d == r;
    } else {
      var c' := Shift(Xor(c, Bit(m[0])));
      OneBit(c, m[0]);
      FeedIsDivision(c', m[1..]);
      assert (m + Zeros())[1..] == m[1..] + Zeros();
      DivisionStep(m, r, BitsOf(c', 32));
      assert d[0] == (m[0] != r[0]);
    }
  }

  lemma DivisionStep(m: Bits, r: Bits, s: Bits)
    requires m != [] && |r| == |s| == 32
    requires r[0] == m[0] ==> s == r[1..] + [false]
    requires r[0] != m[0] ==> s == PlusFront(r[1..] + [false], Generator())
    ensures var d := PlusFront(m + Zeros(), r);
      PlusFront(m[1..] + Zeros(), s) == if m[0] != r[0] then PlusFront(d[1..], Generator()) else d[1..]
  {
    hide Generator;
    var d := PlusFront(m + Zeros(), r);
    assert (m + Zeros())[1..] == m[1..] + Zeros();
  }

  // ----- eight bits are a byte

  /** The part of a byte not fed yet stands above the bits fed so far. */
  lemma {:induction false} ShiftsFeedBits(c: bv32, w: bv32, n: nat)
    requires Halves(w, n) == 0
    ensures Shifts(Xor(c, w), n) == FeedBits(c, BitsOf(w, n))
    decreases n
  {
    hide Shift, Xor, Odd, Half;
    if n == 0 {
      XorLaws(c, 0, 0);
    } else {
      var c' := Shift(Xor(c, Bit(Odd(w))));
      ShiftsFeedBits(c', Half(w), n - 1);
      assert BitsOf(w, n)[1..] == BitsOf(Half(w), n - 1);
      ShiftOneBit(c, w);
      ShiftsStep(Xor(c, w), n);
    }
  }

  lemma ShiftsStep(x: bv32, n: nat)
    requires n > 0
    ensures Shifts(x, n) == Shifts(Shift(x), n - 1)
  {
  }

  lemma ShiftOneBit(c: bv32, w: bv32)
    ensures Shift(Xor(c, w)) == Xor(Shift(Xor(c, Bit(Odd(w)))), Half(w))
  {
    hide Xor, Odd, Half;
    var b := Bit(Odd(w));
    BitAlone(Odd(w));
    OddOfXor(c, w);
    OddOfXor(c, b);
    HalfOfXor(c, w);
    HalfOfXor(c, b);
    XorLaws(Half(c), 0, 0);
    XorLaws(Half(c), Half(w), CRC_POLY);
    XorLaws(Half(c), CRC_POLY, Half(w));
    XorLaws(Half(w), CRC_POLY, 0);
  }

  lemma ByteAsBits(b: bv8)
    ensures BitsOf(Wide(b), 8) == ByteBits(b) && Halves(Wide(b), 8) == 0
  {
    hide BitsOf, OddAt, Wide, Halves, OtherBytes, Has;
    var w := Wide(b);
    EightBits(w, 0);
    NoBits(OtherBytes(w));
    BitsOfByte(b);
    HalvesByEight(w, 0);
    NoHalves(OtherBytes(w));
    WideIsLow(b);
  }

  lemma BitsOfByte(b: bv8)
    ensures var w := Wide(b);
      && OddAt(w, 0) == Has(b, 1) && OddAt(w, 1) == Has(b, 2) && OddAt(w, 2) == Has(b, 4) && OddAt(w, 3) == Has(b, 8)
      && OddAt(w, 4) == Has(b, 16) && OddAt(w, 5) == Has(b, 32) && OddAt(w, 6) == Has(b, 64)
        && OddAt(w, 7) == Has(b, 128)
  {
    hide Odd, Half, Wide, Has;
    FourHalves(Wide(b));
    FourHalves(Half(Half(Half(Half(Wide(b))))));
    HalvesCompose(Wide(b));
    LowFour(b);
    HighFour(b);
    hide Halves;
  }

  lemma WideIsLow(b: bv8)
    ensures OtherBytes(Wide(b)) == 0
  {
  }

  lemma LowFour(b: bv8)
    ensures var w := Wide(b);
      && Odd(w) == Has(b, 1) && Odd(Half(w)) == Has(b, 2)
      && Odd(Half(Half(w))) == Has(b, 4) && Odd(Half(Half(Half(w)))) == Has(b, 8)
  {
  }

  lemma HighFour(b: bv8)
    ensures var w := Half(Half(Half(Half(Wide(b)))));
      && Odd(w) == Has(b, 16) && Odd(Half(w)) == Has(b, 32)
      && Odd(Half(Half(w))) == Has(b, 64) && Odd(Half(Half(Half(w)))) == Has(b, 128)
  {
  }

  lemma {:induction false} FeedBitsCompose(c: bv32, m: Bits, k: Bits)
    ensures FeedBits(c, m + k) == FeedBits(FeedBits(c, m), k)
    decreases |m|
  {
    hide Shift, Xor;
    if m == [] {
      assert m + k == k;
    } else {
      assert (m + k)[1..] == m[1..] + k;
      FeedBitsCompose(Shift(Xor(c, Bit(m[0]))), m[1..], k);
    }
  }

  lemma {:induction false} BytesAreBits(c: bv32, data: seq<bv8>)
    ensures CrcFeed(c, data) == FeedBits(c, MessageBits(data))
    decreases |data|
  {
    hide Shifts, Xor, Wide, ByteBits;
    if data != [] {
      var w := Wide(data[0]);
      ByteAsBits(data[0]);
      ShiftsFeedBits(c, w, 8);
      FeedBitsCompose(c, ByteBits(data[0]), MessageBits(data[1..]));
      BytesAreBits(Crc32Byte(c, data[0]), data[1..]);
    }
  }

  // ----- the result

  lemma AllOnes()
    ensures BitsOf(CRC_INIT, 32) == Ones()
  {
    hide BitsOf, Odd, Half;
    FourOf(0xFFFFFFFF, 28, true, true, true, true, 0xFFFFFFF);
    FourOf(0xFFFFFFF, 24, true, true, true, true, 0xFFFFFF);
    FourOf(0xFFFFFF, 20, true, true, true, true, 0xFFFFF);
    FourOf(0xFFFFF, 16, true, true, true, true, 0xFFFF);
    FourOf(0xFFFF, 12, true, true, true, true, 0xFFF);
    FourOf(0xFFF, 8, true, true, true, true, 0xFF);
    FourOf(0xFF, 4, true, true, true, true, 0xF);
    FourOf(0xF, 0, true, true, true, true, 0);
    NoBits(0);
  }

  lemma NotIsXorOnes(c: bv32)
    ensures Not(c) == Xor(c, CRC_INIT)
  {
  }

  /** For every message the 32 bits of the result, the lowest first, are the check sequence: long division by the
      generator of degree 32 with the exponents 26, 23, 22, 16, 12, 11, 10, 8, 7, 5, 4, 2, 1 and 0 below it. */
  lemma CrcIsRemainder(data: seq<bv8>)
    ensures BitsOf(Crc32(data), 32) == CheckBits(MessageBits(data))
  {
    hide CrcFeed, BitsOf, Xor, Not, Remainder;
    BytesAreBits(CRC_INIT, data);
    FeedIsDivision(CRC_INIT, MessageBits(data));
    AllOnes();
    NotIsXorOnes(CrcFeed(CRC_INIT, data));
    BitsOfXor(CrcFeed(CRC_INIT, data), CRC_INIT, 32);
  }

  /** The 32 bits say which number it is. */
  lemma BitsDetermine(a: bv32, b: bv32)
    requires BitsOf(a, 32) == BitsOf(b, 32)
    ensures a == b
  {
    hide BitsOf, Xor, Odd, Half;
    BitsOfXor(a, b, 32);
    NoneSet(Xor(a, b));
    XorToZero(a, b);
  }

  lemma XorToZero(a: bv32, b: bv32)
    requires Xor(a, b) == 0
    ensures a == b
  {
  }

  predicate Unset(r: Bits) { forall i :: 0 <= i < |r| ==> !r[i] }

  lemma NoneSet(c: bv32)
    requires Unset(BitsOf(c, 32))
    ensures c == 0
  {
    hide BitsOf, Odd, Half, OtherBytes, LowByteZero;
    EightUnset(c, 24);
    EightUnset(OtherBytes(c), 16);
    EightUnset(OtherBytes(OtherBytes(c)), 8);
    EightUnset(OtherBytes(OtherBytes(OtherBytes(c))), 0);
    FourBytesZero(c);
  }

  predicate LowByteZero(c: bv32) { c & 0xFF == 0 }

  lemma FourBytesZero(c: bv32)
    requires LowByteZero(c) && LowByteZero(OtherBytes(c)) && LowByteZero(OtherBytes(OtherBytes(c)))
    requires LowByteZero(OtherBytes(OtherBytes(OtherBytes(c))))
    ensures c == 0
  {
  }

  lemma EightUnset(c: bv32, n: nat)
    requires Unset(BitsOf(c, n + 8))
    ensures LowByteZero(c) && Unset(BitsOf(OtherBytes(c), n))
  {
    hide BitsOf, OddAt, OtherBytes, LowByteZero;
    EightBits(c, n);
    var bits, rest := BitsOf(c, n + 8), BitsOf(OtherBytes(c), n);
    assert !bits[0] && !bits[1] && !bits[2] && !bits[3] && !bits[4] && !bits[5] && !bits[6] && !bits[7];
    forall i | 0 <= i < n ensures !rest[i] { assert !bits[i + 8]; }
    NoneOddAt(c);
  }

  lemma NoneOddAt(c: bv32)
    requires !OddAt(c, 0) && !OddAt(c, 1) && !OddAt(c, 2) && !OddAt(c, 3)
    requires !OddAt(c, 4) && !OddAt(c, 5) && !OddAt(c, 6) && !OddAt(c, 7)
    ensures LowByteZero(c)
  {
    hide Odd, Half, LowByteZero;
    FourHalves(c);
    FourHalves(Half(Half(Half(Half(c)))));
    HalvesCompose(c);
    LowByteUnset(c);
  }

  lemma LowByteUnset(c: bv32)
    requires !Odd(c) && !Odd(Half(c)) && !Odd(Half(Half(c))) && !Odd(Half(Half(Half(c))))
    requires var x := Half(Half(Half(Half(c))));
      !Odd(x) && !Odd(Half(x)) && !Odd(Half(Half(x))) && !Odd(Half(Half(Half(x))))
    ensures LowByteZero(c)
  {
  }

  // ----- the check value

  lemma CheckByte(c: bv32, b: bv8, c1: bv32, c2: bv32, c3: bv32, c4: bv32, c5: bv32, c6: bv32, c7: bv32, c8: bv32)
    requires c1 == Shift(Xor(c, Wide(b))) && c2 == Shift(c1) && c3 == Shift(c2) && c4 == Shift(c3)
    requires c5 == Shift(c4) && c6 == Shift(c5) && c7 == Shift(c6) && c8 == Shift(c7)
    ensures Crc32Byte(c, b) == c8
  {
    hide Shift, Xor, Wide;
    var x := Xor(c, Wide(b));
    assert Shifts(x, 8) == Shifts(c1, 7) == Shifts(c2, 6) == Shifts(c3, 5) == Shifts(c4, 4);
    assert Shifts(c4, 4) == Shifts(c5, 3) == Shifts(c6, 2) == Shifts(c7, 1) == Shifts(c8, 0);
  }

  lemma FeedStep(c: bv32, b: bv8, data: seq<bv8>)
    requires data != [] && data[0] == b
    ensures CrcFeed(c, data) == CrcFeed(Crc32Byte(c, b), data[1..])
  {
  }

  lemma FedAll(c: bv32)
    ensures CrcFeed(c, []) == c
  {
  }

  lemma FinalComplement()
    ensures Not(0x340BC6D9) == 0xCBF43926
  {
  }

  lemma FirstByteFed()
    ensures Crc32Byte(0xFFFFFFFF, 0x31) == 0x7C231048
  {
    CheckByte(0xFFFFFFFF, 0x31, 0x7FFFFFE7, 0xD2477CD3, 0x849B3D49, 0xAFF51D84,
              0x57FA8EC2, 0x2BFD4761, 0xF8462090, 0x7C231048);
  }

  lemma SecondByteFed()
    ensures Crc32Byte(0x7C231048, 0x32) == 0xB0ACBB32
  {
    CheckByte(0x7C231048, 0x32, 0x3E11883D, 0xF2B0473E, 0x7958239F, 0xD11492EF,
              0x8532CA57, 0xAF21E60B, 0xBA287025, 0xB0ACBB32);
  }

  lemma ThirdByteFed()
    ensures Crc32Byte(0xB0ACBB32, 0x33) == 0x77B79C2D
  {
    CheckByte(0xB0ACBB32, 0x33, 0xB5EEDEA0, 0x5AF76F50, 0x2D7BB7A8, 0x16BDDBD4,
              0x0B5EEDEA, 0x05AF76F5, 0xEF6F385A, 0x77B79C2D);
  }

  lemma FourthByteFed()
    ensures Crc32Byte(0x77B79C2D, 0x34) == 0x641C1F5C
  {
    CheckByte(0x77B79C2D, 0x34, 0xD6634D2C, 0x6B31A696, 0x3598D34B, 0xF774EA85,
              0x9602F662, 0x4B017B31, 0xC8383EB8, 0x641C1F5C);
  }

  lemma FifthByteFed()
    ensures Crc32Byte(0x641C1F5C, 0x35) == 0x340AC5E3
  {
    CheckByte(0x641C1F5C, 0x35, 0xDFB68C94, 0x6FDB464A, 0x37EDA325, 0xF64E52B2,
              0x7B272959, 0xD02B178C, 0x68158BC6, 0x340AC5E3);
  }

  lemma SixthByteFed()
    ensures Crc32Byte(0x340AC5E3, 0x36) == 0xF68D2C9E
  {
    CheckByte(0x340AC5E3, 0x36, 0xF7BDE1CA, 0x7BDEF0E5, 0xD057FB52, 0x682BFDA9,
              0xD9AD7DF4, 0x6CD6BEFA, 0x366B5F7D, 0xF68D2C9E);
  }

  lemma SeventhByteFed()
    ensures Crc32Byte(0xF68D2C9E, 0x37) == 0xAFFC9660
  {
    CheckByte(0xF68D2C9E, 0x37, 0x96FE1574, 0x4B7F0ABA, 0x25BF855D, 0xFF67418E,
              0x7FB3A0C7, 0xD2615343, 0x84882A81, 0xAFFC9660);
  }

  lemma EighthByteFed()
    ensures Crc32Byte(0xAFFC9660, 0x38) == 0x651F2550
  {
    CheckByte(0xAFFC9660, 0x38, 0x57FE4B2C, 0x2BFF2596, 0x15FF92CB, 0xE7474A45,
              0x9E1B2602, 0x4F0D9301, 0xCA3E4AA0, 0x651F2550);
  }

  lemma NinthByteFed()
    ensures Crc32Byte(0x651F2550, 0x39) == 0x340BC6D9
  {
    CheckByte(0x651F2550, 0x39, 0xDF371194, 0x6F9B88CA, 0x37CDC465, 0xF65E6112,
              0x7B2F3089, 0xD02F1B64, 0x68178DB2, 0x340BC6D9);
  }

  /** The usual check value, that of the nine characters 1 to 9. */
  lemma CheckValue()
    ensures Crc32([0x31, 0x32, 0x33, 0x34, 0x35, 0x36, 0x37, 0x38, 0x39]) == 0xCBF43926
  {
    hide CrcFeed, Crc32Byte, Not;
    var m: seq<bv8> := [0x31, 0x32, 0x33, 0x34, 0x35, 0x36, 0x37, 0x38, 0x39];
    assert forall i :: 0 <= i < 9 ==> m[i..][0] == m[i] && m[i..][1..] == m[i + 1..];
    FirstByteFed();
    FeedStep(0xFFFFFFFF, 0x31, m[0..]);
    SecondByteFed();
    FeedStep(0x7C231048, 0x32, m[1..]);
    ThirdByteFed();
    FeedStep(0xB0ACBB32, 0x33, m[2..]);
    FourthByteFed();
    FeedStep(0x77B79C2D, 0x34, m[3..]);
    FifthByteFed();
    FeedStep(0x641C1F5C, 0x35, m[4..]);
    SixthByteFed();
    FeedStep(0x340AC5E3, 0x36, m[5..]);
    SeventhByteFed();
    FeedStep(0xF68D2C9E, 0x37, m[6..]);
    EighthByteFed();
    FeedStep(0xAFFC9660, 0x38, m[7..]);
    NinthByteFed();
    FeedStep(0x651F2550, 0x39, m[8..]);
    assert m[0..] == m && m[9..] == [];
    FedAll(0x340BC6D9);
    FinalComplement();
  }
}
