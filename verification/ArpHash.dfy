/** The FNV-1a hash that picks the home slot of an address (arp_hash in sw/firmware/arp.c). */
module ArpHash {
  import opened Words

  const FNV_BASIS: uint32 := 2166136261
  const FNV_PRIME := 16777619

  /** One round: xor a byte into the low end of the accumulator, then multiply in 32 bits. */
  function Round(h: uint32, b: uint8): uint32 {
    (h - h % 256 + Xor8(h % 256, b)) * FNV_PRIME % TWO_32
  }

  function Fnv(bytes: seq<uint8>): uint32 {
    if bytes == [] then FNV_BASIS else Round(Fnv(bytes[..|bytes| - 1]), bytes[|bytes| - 1])
  }

  /** The four bytes of an address, least significant first: the order in which they are hashed. */
  function Le32(v: uint32): seq<uint8> {
    [v % 256, v / 256 % 256, v / 0x1_0000 % 256, v / 0x100_0000]
  }

  function Home(ip: uint32): (slot: nat)
    ensures slot < 256
  {
    Fnv(Le32(ip)) % 256
  }

  lemma FnvOfFour(b: seq<uint8>)
    requires |b| == 4
    ensures Fnv(b) == Round(Round(Round(Round(FNV_BASIS, b[0]), b[1]), b[2]), b[3])
  {
    hide Round;
    assert b[..3] == [b[0], b[1], b[2]] && b[..3][..2] == [b[0], b[1]] && [b[0], b[1]][..1] == [b[0]];
    assert [b[0]][..0] == [];
    assert Fnv([b[0]]) == Round(FNV_BASIS, b[0]);
    assert Fnv([b[0], b[1]]) == Round(Fnv([b[0]]), b[1]);
    assert Fnv(b[..3]) == Round(Fnv([b[0], b[1]]), b[2]);
  }

  /** The hash as it is computed, one byte of the address after the other. */
  method ArpHash(ip: uint32) returns (slot: nat)
    ensures slot == Home(ip) && slot < 256
  {
    var h := FNV_BASIS;
    h := Round(h, ip % 256);
    h := Round(h, ip / 256 % 256);
    h := Round(h, ip / 0x1_0000 % 256);
    h := Round(h, ip / 0x100_0000);
    FnvOfFour(Le32(ip));
    slot := h % 256;
  }

  lemma DropMultiple(a: int, k: int)
    ensures (256 * k + a) % 256 == a % 256
  {
  }

  lemma LowByteOfProduct(q: nat, x: nat)
    ensures (256 * q + x) * FNV_PRIME % 256 == x * 0x93 % 256
  {
    assert (256 * q + x) * FNV_PRIME == 256 * (q * FNV_PRIME + x * 65537) + x * 0x93;
    DropMultiple(x * 0x93, q * FNV_PRIME + x * 65537);
  }

  lemma LowByteOf32(v: nat)
    ensures v % TWO_32 % 256 == v % 256
  {
  }

  /** The low byte of a round depends on the low byte of the accumulator alone: 16777619 is 0x93 modulo 256. */
  lemma RoundLow(h: uint32, b: uint8)
    ensures Round(h, b) % 256 == Xor8(h % 256, b) * 0x93 % 256
  {
    hide Xor8;
    var x: int := Xor8(h % 256, b);
    var q := h / 256;
    assert h - h % 256 + x == 256 * q + x;
    LowByteOf32((256 * q + x) * FNV_PRIME);
    LowByteOfProduct(q, x);
  }

  lemma EqualRemainders(m: int, n: int)
    requires m % 256 == n % 256
    ensures m - n == 256 * (m / 256 - n / 256)
  {
  }

  lemma SmallMultiple(d: int, j: int)
    requires -256 < d < 256 && d == 256 * j
    ensures d == 0
  {
  }

  /** 0x93 is odd, so multiplying a byte by it loses nothing: 0x9B undoes it. */
  lemma TimesOddIsInjective(x: uint8, y: uint8)
    requires x * 0x93 % 256 == y * 0x93 % 256
    ensures x == y
  {
    var m: int, n: int := x * 0x93, y * 0x93;
    EqualRemainders(m, n);
    var d: int, k: int := x - y, m / 256 - n / 256;
    assert d * 0x93 == 256 * k;
    SmallMultiple(d, 0x9B * k - 89 * d);
  }

  function LowRound(low: uint8, b: uint8): uint8 { Xor8(low, b) as int * 147 % 256 }

  /** Only low bytes count: the home slot is reached from 197 by four rounds of xor with a byte and multiplication by
      147 modulo 256, the least significant byte of the address first. */
  lemma HomeIsLowBytes(ip: uint32)
    ensures Home(ip) ==
      LowRound(LowRound(LowRound(LowRound(197, ip % 256), ip / 256 % 256), ip / 0x1_0000 % 256), ip / 0x100_0000)
  {
    hide Round, Xor8;
    var b := Le32(ip);
    FnvOfFour(b);
    assert FNV_BASIS % 256 == 197;
    var h0 := Round(FNV_BASIS, b[0]);
    var h1 := Round(h0, b[1]);
    var h2 := Round(h1, b[2]);
    RoundLow(FNV_BASIS, b[0]);
    RoundLow(h0, b[1]);
    RoundLow(h1, b[2]);
    RoundLow(h2, b[3]);
    hide Fnv;
  }

  /** A round is injective in the low byte of the accumulator and in the byte hashed. */
  lemma RoundSeparates(h: uint32, k: uint32, b: uint8, c: uint8)
    ensures h % 256 == k % 256 && b != c ==> Round(h, b) % 256 != Round(k, c) % 256
    ensures h % 256 != k % 256 && b == c ==> Round(h, b) % 256 != Round(k, c) % 256
  {
    RoundLow(h, b);
    RoundLow(k, c);
    var x, y := Xor8(h % 256, b), Xor8(k % 256, c);
    if Round(h, b) % 256 == Round(k, c) % 256 {
      TimesOddIsInjective(x, y);
      if h % 256 == k % 256 {
        XorCancels(h % 256, b, c, 8);
      } else if b == c {
        XorCommutes(h % 256, b, 8);
        XorCommutes(k % 256, b, 8);
        XorCancels(b, h % 256, k % 256, 8);
      }
    }
  }

  lemma SameSubnetBytes(a: uint32, b: uint32)
    requires a / 256 == b / 256 && a != b
    ensures var s, t := Le32(a), Le32(b); s[0] != t[0] && s[1] == t[1] && s[2] == t[2] && s[3] == t[3]
  {
    assert a / 0x1_0000 == a / 256 / 256 && b / 0x1_0000 == b / 256 / 256;
    assert a / 0x100_0000 == a / 256 / 0x1_0000 && b / 0x100_0000 == b / 256 / 0x1_0000;
  }

  /** Two different addresses of one /24 never share a home slot. */
  lemma SameSubnetNeverCollides(a: uint32, b: uint32)
    requires a / 256 == b / 256 && a != b
    ensures Home(a) != Home(b)
  {
    hide Round;
    var s, t := Le32(a), Le32(b);
    SameSubnetBytes(a, b);
    assert forall i | 0 < i <= 4 :: s[..i][..i - 1] == s[..i - 1] && t[..i][..i - 1] == t[..i - 1];
    RoundSeparates(Fnv(s[..0]), Fnv(t[..0]), s[0], t[0]);
    RoundSeparates(Fnv(s[..1]), Fnv(t[..1]), s[1], t[1]);
    RoundSeparates(Fnv(s[..2]), Fnv(t[..2]), s[2], t[2]);
    RoundSeparates(Fnv(s[..3]), Fnv(t[..3]), s[3], t[3]);
    assert s[..4] == s && t[..4] == t;
  }

  lemma LowOfRound(h: uint32, b: uint8, low: uint8)
    requires h % 256 == low
    ensures b == low ==> Round(h, b) % 256 == 0
    ensures b == 0 ==> Round(h, b) % 256 == low * 0x93 % 256
  {
    RoundLow(h, b);
    assert Pow2(8) == 256;
    XorWithSelf(low, 8);
    XorWithZero(low, 8);
    hide Round, Xor;
  }

  function FourRounds(h: uint32, b0: uint8, b1: uint8, b2: uint8, b3: uint8): uint32 {
    Round(Round(Round(Round(h, b0), b1), b2), b3)
  }

  /** A byte that meets itself in the accumulator leaves zero there, now or one round later. */
  lemma EarlyOrLateZero(h: uint32, b: uint8, c: uint8, last: uint8)
    requires h % 256 == b && c == b * 0x93 % 256
    ensures FourRounds(h, b, 0, 0, last) % 256 == FourRounds(h, 0, c, 0, last) % 256
  {
    hide Round, Xor8;
    LowOfRound(h, b, b);
    LowOfRound(h, 0, b);
    LowOfRound(Round(h, b), 0, 0);
    LowOfRound(Round(h, 0), c, c);
    LowOfRound(Round(Round(h, b), 0), 0, 0);
    LowOfRound(Round(Round(h, 0), c), 0, 0);
    RoundLow(Round(Round(Round(h, b), 0), 0), last);
    RoundLow(Round(Round(Round(h, 0), c), 0), last);
  }

  lemma HomeOfFour(ip: uint32, b0: uint8, b1: uint8, b2: uint8, b3: uint8)
    requires Le32(ip) == [b0, b1, b2, b3]
    ensures Home(ip) == FourRounds(FNV_BASIS, b0, b1, b2, b3) % 256
  {
    FnvOfFour(Le32(ip));
    hide Fnv, Round, Le32;
  }

  /** Home slots do collide across subnets: 10.0.0.197 and 10.0.31.0 share one. */
  lemma TwoAddressesCollide()
    ensures Home(0x0A00_00C5) == Home(0x0A00_1F00)
  {
    hide Round, Fnv, Home, FourRounds;
    HomeOfFour(0x0A00_00C5, 0xC5, 0, 0, 10);
    HomeOfFour(0x0A00_1F00, 0, 0x1F, 0, 10);
    EarlyOrLateZero(FNV_BASIS, 0xC5, 0x1F, 10);
  }
}
