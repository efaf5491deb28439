/** The CRC32 and Jenkins hash functions of rtl/mau/mau_hash.sv, on 32-bit registers. */
module MauHash {
  const CRC_POLY: bv32 := 0xEDB88320
  const CRC_INIT: bv32 := 0xFFFFFFFF

  // The register operations have names so that the proofs can treat them as black boxes that obey a few laws.
  function Xor(a: bv32, b: bv32): bv32 { a ^ b }
  function Half(c: bv32): bv32 { c >> 1 }
  predicate Odd(c: bv32) { c & 1 == 1 }
  function Wide(b: bv8): bv32 { b as bv32 }

  /** One shift of the reflected CRC register (clause 3.2.9 of IEEE 802.3). */
  function Shift(c: bv32): bv32 {
    if Odd(c) then Xor(Half(c), CRC_POLY) else Half(c)
  }

  function Shifts(c: bv32, n: nat): bv32
    decreases n
  {
    if n == 0 then c else Shifts(Shift(c), n - 1)
  }

  function Crc32Byte(crc: bv32, data: bv8): bv32 { Shifts(Xor(crc, Wide(data)), 8) }

  /** The register after the bytes of a message. */
  function CrcFeed(crc: bv32, data: seq<bv8>): bv32
    decreases |data|
  {
    if data == [] then crc else CrcFeed(Crc32Byte(crc, data[0]), data[1..])
  }

  function Not(c: bv32): bv32 { !c }

  function Crc32(data: seq<bv8>): bv32 { Not(CrcFeed(CRC_INIT, data)) }

  /** The rounds of Jenkins' one-at-a-time hash: absorb a byte, mix upwards, mix downwards; then three final mixes. */
  function Absorb(h: bv32, data: bv8): bv32 { h + (data as bv32) }
  function Up10(h: bv32): bv32 { h + (h << 10) }
  function Shr6(h: bv32): bv32 { h >> 6 }
  function Down6(h: bv32): bv32 { Xor(h, Shr6(h)) }
  function Up3(h: bv32): bv32 { h + (h << 3) }
  function Shr11(h: bv32): bv32 { h >> 11 }
  function Down11(h: bv32): bv32 { Xor(h, Shr11(h)) }
  function Up15(h: bv32): bv32 { h + (h << 15) }

  function JenkinsByte(h: bv32, data: bv8): bv32 { Down6(Up10(Absorb(h, data))) }

  function JenkinsFeed(h: bv32, data: seq<bv8>): bv32
    decreases |data|
  {
    if data == [] then h else JenkinsFeed(JenkinsByte(h, data[0]), data[1..])
  }

  function Jenkins(data: seq<bv8>): bv32 { Up15(Down11(Up3(JenkinsFeed(0, data)))) }

  // ----- the hardware loops: 64 iterations, of which the first `len` do something

  type HashKey = k: seq<bv8> | |k| == 64 witness seq(64, _ => 0)

  method ComputeCrc32(key: HashKey, len: nat) returns (r: bv32)
    requires len <= 64
    ensures r == Crc32(key[..len])
  {
    var crc := CRC_INIT;
    for i := 0 to 64
      invariant CrcFeed(crc, key[..len][if i < len then i else len..]) == CrcFeed(CRC_INIT, key[..len])
    {
      if i < len {
        assert key[..len][i..][1..] == key[..len][i + 1..];
        crc := ComputeCrc32Byte(crc, key[i]);
      }
    }
    r := !crc;
  }

  method ComputeCrc32Byte(crc: bv32, data: bv8) returns (c: bv32)
    ensures c == Crc32Byte(crc, data)
  {
    c := crc ^ (data as bv32);
    for i := 0 to 8
      invariant Shifts(c, 8 - i) == Crc32Byte(crc, data)
    {
      c := if c & 1 == 1 then (c >> 1) ^ CRC_POLY else c >> 1;
    }
  }

  method ComputeJenkins(key: HashKey, len: nat) returns (r: bv32)
    requires len <= 64
    ensures r == Jenkins(key[..len])
  {
    var h: bv32 := 0;
    for i := 0 to 64
      invariant JenkinsFeed(h, key[..len][if i < len then i else len..]) == JenkinsFeed(0, key[..len])
    {
      if i < len {
        assert key[..len][i..][1..] == key[..len][i + 1..];
        h := Absorb(h, key[i]);
        h := Up10(h);
        h := Down6(h);
      }
    }
    h := Up3(h);
    h := Down11(h);
    r := Up15(h);
  }

  // ----- laws of the register operations

  lemma HalfOfXor(x: bv32, y: bv32)
    ensures Half(Xor(x, y)) == Xor(Half(x), Half(y))
  {
  }

  lemma OddOfXor(x: bv32, y: bv32)
    ensures Odd(Xor(x, y)) <==> Odd(x) != Odd(y)
  {
    assert (x ^ y) & 1 == (x & 1) ^ (y & 1);
    assert x & 1 == 0 || x & 1 == 1;
    assert y & 1 == 0 || y & 1 == 1;
  }

  lemma XorAssociates(a: bv32, b: bv32, c: bv32)
    ensures Xor(Xor(a, b), c) == Xor(a, Xor(b, c))
  {
  }

  lemma XorCommutes(a: bv32, b: bv32)
    ensures Xor(a, b) == Xor(b, a)
  {
  }

  lemma XorUndoes(a: bv32, b: bv32)
    ensures Xor(a, Xor(a, b)) == b
  {
  }

  lemma XorZero(a: bv32)
    ensures Xor(a, 0) == a
  {
  }

  lemma XorLaws(a: bv32, b: bv32, c: bv32)
    ensures Xor(Xor(a, b), c) == Xor(a, Xor(b, c))
    ensures Xor(a, b) == Xor(b, a)
    ensures Xor(a, Xor(a, b)) == b && Xor(a, 0) == a
  {
    hide Xor;
    XorAssociates(a, b, c);
    XorCommutes(a, b);
    XorUndoes(a, b);
    XorZero(a);
  }

  lemma XorCancels(x: bv32, y: bv32, z: bv32)
    requires Xor(z, x) == Xor(z, y)
    ensures x == y
  {
    hide Xor;
    XorLaws(z, x, 0);
    XorLaws(z, y, 0);
  }

  // ----- the shift is an invertible XOR-linear map

  lemma ShiftIsLinear(x: bv32, y: bv32)
    ensures Shift(Xor(x, y)) == Xor(Shift(x), Shift(y))
  {
    hide Xor, Half, Odd;
    var a, b := Half(x), Half(y);
    HalfOfXor(x, y);
    OddOfXor(x, y);
    XorLaws(a, b, CRC_POLY);
    XorLaws(a, CRC_POLY, b);
    XorLaws(CRC_POLY, b, 0);
    XorLaws(a, CRC_POLY, Xor(CRC_POLY, b));
  }

  function UnShift(c: bv32): bv32 { if c >> 31 == 1 then ((c ^ CRC_POLY) << 1) | 1 else c << 1 }

  lemma UnShiftUndoes(c: bv32)
    ensures UnShift(Shift(c)) == c
  {
  }

  lemma ShiftIsInjective(x: bv32, y: bv32)
    requires Shift(x) == Shift(y)
    ensures x == y
  {
    hide Shift, UnShift;
    UnShiftUndoes(x);
    UnShiftUndoes(y);
  }

  lemma {:induction false} ShiftsAreLinear(x: bv32, y: bv32, n: nat)
    ensures Shifts(Xor(x, y), n) == Xor(Shifts(x, n), Shifts(y, n))
    decreases n
  {
    hide Shift, Xor;
    if n > 0 {
      ShiftIsLinear(x, y);
      ShiftsAreLinear(Shift(x), Shift(y), n - 1);
    }
  }

  lemma {:induction false} ShiftsAreInjective(x: bv32, y: bv32, n: nat)
    requires Shifts(x, n) == Shifts(y, n)
    ensures x == y
    decreases n
  {
    hide Shift;
    if n > 0 {
      ShiftsAreInjective(Shift(x), Shift(y), n - 1);
      ShiftIsInjective(x, y);
    }
  }

  lemma {:induction false} ShiftsCompose(x: bv32, m: nat, n: nat)
    ensures Shifts(Shifts(x, m), n) == Shifts(x, m + n)
    decreases m
  {
    hide Shift;
    if m > 0 { ShiftsCompose(Shift(x), m - 1, n); }
  }

  // ----- bytes fed one after the other act like bytes side by side in the register

  function Raise(p: bv32): bv32 { (p & 0xFFFFFF) << 8 }
  predicate Fits24(p: bv32) { p & 0xFFFFFF == p }

  lemma RaiseIsEven(p: bv32)
    ensures var x := Raise(p);
      && !Odd(x) && !Odd(Half(x)) && !Odd(Half(Half(x))) && !Odd(Half(Half(Half(x))))
  {
  }

  lemma RaiseIsEvenStill(p: bv32)
    ensures var x := Half(Half(Half(Half(Raise(p)))));
      && !Odd(x) && !Odd(Half(x)) && !Odd(Half(Half(x))) && !Odd(Half(Half(Half(x))))
      && Half(Half(Half(Half(x)))) == p & 0xFFFFFF
  {
  }

  lemma FourEvenShifts(x: bv32, n: nat)
    requires !Odd(x) && !Odd(Half(x)) && !Odd(Half(Half(x))) && !Odd(Half(Half(Half(x))))
    ensures Shifts(x, n + 4) == Shifts(Half(Half(Half(Half(x)))), n)
  {
    hide Odd, Half, Xor;
    assert Shifts(x, n + 4) == Shifts(Half(x), n + 3);
    assert Shifts(Half(x), n + 3) == Shifts(Half(Half(x)), n + 2);
    assert Shifts(Half(Half(x)), n + 2) == Shifts(Half(Half(Half(x))), n + 1);
  }

  /** A byte fed later is the same byte fed eight bits higher now. */
  lemma LaterByte(p: bv32)
    requires Fits24(p)
    ensures Shifts(Raise(p), 8) == p
  {
    RaiseIsEven(p);
    RaiseIsEvenStill(p);
    LaterByteAux(p);
  }

  lemma LaterByteAux(p: bv32)
    requires var x := Raise(p);
      && !Odd(x) && !Odd(Half(x)) && !Odd(Half(Half(x))) && !Odd(Half(Half(Half(x))))
    requires var x := Half(Half(Half(Half(Raise(p)))));
      && !Odd(x) && !Odd(Half(x)) && !Odd(Half(Half(x))) && !Odd(Half(Half(Half(x))))
    ensures Shifts(Raise(p), 8) == Half(Half(Half(Half(Half(Half(Half(Half(Raise(p)))))))))
  {
    hide Odd, Half, Xor, Raise;
    FourEvenShifts(Raise(p), 4);
    FourEvenShifts(Half(Half(Half(Half(Raise(p))))), 0);
  }

  /** Up to four bytes as one register value, the first byte lowest. */
  function Pack(w: seq<bv8>): bv32
    requires |w| <= 4
    decreases |w|
  {
    if w == [] then 0 else Xor(Wide(w[0]), Raise(Pack(w[1..])))
  }

  predicate Fits16(p: bv32) { p & 0xFFFF == p }
  predicate Fits8(p: bv32) { p & 0xFF == p }

  lemma PackSteps(b: bv8, p: bv32)
    ensures p == 0 ==> Fits8(Xor(Wide(b), Raise(p)))
    ensures Fits8(p) ==> Fits16(Xor(Wide(b), Raise(p)))
    ensures Fits16(p) ==> Fits24(Xor(Wide(b), Raise(p)))
    ensures Fits8(p) ==> Fits16(p)
    ensures Fits16(p) ==> Fits24(p)
    ensures Fits8(0)
  {
  }

  lemma {:induction false} PackFits(w: seq<bv8>)
    requires |w| <= 3
    ensures Fits24(Pack(w)) && (|w| <= 2 ==> Fits16(Pack(w))) && (|w| <= 1 ==> Fits8(Pack(w)))
    decreases |w|
  {
    hide Xor, Wide, Raise, Fits8, Fits16, Fits24;
    PackSteps(0, Pack(w));
    if w != [] {
      PackFits(w[1..]);
      PackSteps(w[0], Pack(w[1..]));
    }
  }

  /** Feeding up to four bytes is shifting the register once they have all been XORed into it. */
  lemma {:induction false} FeedIsShifts(s: bv32, w: seq<bv8>)
    requires |w| <= 4
    ensures CrcFeed(s, w) == Shifts(Xor(s, Pack(w)), 8 * |w|)
    decreases |w|
  {
    hide Xor, Wide, Raise, Fits8, Fits16, Fits24, Shift, Shifts;
    if w == [] {
      XorLaws(s, 0, 0);
      ShiftsZero(s);
    } else {
      var p, t := Pack(w[1..]), Xor(s, Wide(w[0]));
      FeedIsShifts(Shifts(t, 8), w[1..]);
      PackFits(w[1..]);
      LaterByte(p);
      ShiftsAreLinear(t, Raise(p), 8);
      XorLaws(s, Wide(w[0]), Raise(p));
      ShiftsCompose(Xor(s, Pack(w)), 8, 8 * (|w| - 1));
    }
  }

  lemma ShiftsZero(s: bv32)
    ensures Shifts(s, 0) == s
  {
  }

  function FirstByte(p: bv32): bv8 { (p & 0xFF) as bv8 }
  function OtherBytes(p: bv32): bv32 { p >> 8 }

  lemma FirstByteBack(b: bv8, p: bv32)
    ensures FirstByte(Xor(Wide(b), Raise(p))) == b
    ensures Fits24(p) ==> OtherBytes(Xor(Wide(b), Raise(p))) == p
  {
  }

  lemma {:induction false} PackIsInjective(w: seq<bv8>, v: seq<bv8>)
    requires |w| == |v| <= 4 && Pack(w) == Pack(v)
    ensures w == v
    decreases |w|
  {
    hide Xor, Wide, Raise, Fits8, Fits16, Fits24, FirstByte, OtherBytes;
    if w != [] {
      PackFits(w[1..]);
      PackFits(v[1..]);
      FirstByteBack(w[0], Pack(w[1..]));
      FirstByteBack(v[0], Pack(v[1..]));
      PackIsInjective(w[1..], v[1..]);
      assert w == [w[0]] + w[1..] && v == [v[0]] + v[1..];
    }
  }

  lemma {:induction false} CrcFeedSplits(s: bv32, a: seq<bv8>, b: seq<bv8>)
    ensures CrcFeed(s, a + b) == CrcFeed(CrcFeed(s, a), b)
    decreases |a|
  {
    hide Crc32Byte;
    if a == [] {
      assert a + b == b;
    } else {
      assert (a + b)[1..] == a[1..] + b;
      CrcFeedSplits(Crc32Byte(s, a[0]), a[1..], b);
    }
  }

  lemma Crc32ByteIsInjective(s: bv32, t: bv32, b: bv8)
    requires Crc32Byte(s, b) == Crc32Byte(t, b)
    ensures s == t
  {
    hide Xor, Wide, Shift, Shifts;
    ShiftsAreInjective(Xor(s, Wide(b)), Xor(t, Wide(b)), 8);
    XorLaws(s, Wide(b), 0);
    XorLaws(t, Wide(b), 0);
    XorCancels(s, t, Wide(b));
  }

  lemma {:induction false} CrcFeedIsInjective(s: bv32, t: bv32, data: seq<bv8>)
    requires CrcFeed(s, data) == CrcFeed(t, data)
    ensures s == t
    decreases |data|
  {
    hide Crc32Byte;
    if data != [] {
      CrcFeedIsInjective(Crc32Byte(s, data[0]), Crc32Byte(t, data[0]), data[1..]);
      Crc32ByteIsInjective(s, t, data[0]);
    }
  }

  lemma NotTwice(x: bv32)
    ensures Not(Not(x)) == x
  {
  }

  lemma NotIsInjective(x: bv32, y: bv32)
    requires Not(x) == Not(y)
    ensures x == y
  {
    hide Not;
    NotTwice(x);
    NotTwice(y);
  }

  /** Two messages of one length that differ only inside four consecutive bytes never have the same CRC32. */
  lemma CrcSeparatesWindow(p: seq<bv8>, q: seq<bv8>, k: nat, len: nat)
    requires |p| == |q| && len <= 4 && k + len <= |p|
    requires p[..k] == q[..k] && p[k + len..] == q[k + len..]
    requires Crc32(p) == Crc32(q)
    ensures p == q
  {
    hide Crc32Byte, Xor, Shift, Shifts, Not, Pack, CrcFeed;
    var w, v, tail := p[k..k + len], q[k..k + len], p[k + len..];
    assert p == p[..k] + (w + tail) && q == p[..k] + (v + tail);
    var s := CrcFeed(CRC_INIT, p[..k]);
    CrcFeedSplits(CRC_INIT, p[..k], w + tail);
    CrcFeedSplits(CRC_INIT, p[..k], v + tail);
    CrcFeedSplits(s, w, tail);
    CrcFeedSplits(s, v, tail);
    NotIsInjective(CrcFeed(CRC_INIT, p), CrcFeed(CRC_INIT, q));
    CrcFeedIsInjective(CrcFeed(s, w), CrcFeed(s, v), tail);
    FeedIsShifts(s, w);
    FeedIsShifts(s, v);
    ShiftsAreInjective(Xor(s, Pack(w)), Xor(s, Pack(v)), 8 * len);
    XorCancels(Pack(w), Pack(v), s);
    PackIsInjective(w, v);
  }

  // ----- every step of the Jenkins hash is a bijection of the register

  // Adding a shifted copy is undone from the low bits up: once enough of them agree, the shifted copies agree.
  lemma Up10LowTen(x: bv32, y: bv32)
    requires x + (x << 10) == y + (y << 10)
    ensures x & 0x3FF == y & 0x3FF
  {
  }

  lemma Up10LowTwenty(x: bv32, y: bv32)
    requires x + (x << 10) == y + (y << 10) && x & 0x3FF == y & 0x3FF
    ensures x & 0xFFFFF == y & 0xFFFFF
  {
  }

  lemma Up10LowTwentyTwo(x: bv32, y: bv32)
    requires x + (x << 10) == y + (y << 10) && x & 0xFFFFF == y & 0xFFFFF
    ensures x & 0x3FFFFF == y & 0x3FFFFF
  {
  }

  lemma Up15LowSeventeen(x: bv32, y: bv32)
    requires x + (x << 15) == y + (y << 15)
    ensures x & 0x1FFFF == y & 0x1FFFF
  {
  }

  lemma ShiftedCopies(x: bv32, y: bv32)
    ensures x & 0x3FFFFF == y & 0x3FFFFF ==> x << 10 == y << 10
    ensures x & 0x1FFFF == y & 0x1FFFF ==> x << 15 == y << 15
  {
  }

  lemma AddCancels(x: bv32, y: bv32, s: bv32)
    requires x + s == y + s
    ensures x == y
  {
  }

  lemma Up10IsInjective(x: bv32, y: bv32)
    requires Up10(x) == Up10(y)
    ensures x == y
  {
    Up10LowTen(x, y);
    Up10LowTwenty(x, y);
    Up10LowTwentyTwo(x, y);
    ShiftedCopies(x, y);
    AddCancels(x, y, x << 10);
  }

  lemma Up15IsInjective(x: bv32, y: bv32)
    requires Up15(x) == Up15(y)
    ensures x == y
  {
    Up15LowSeventeen(x, y);
    ShiftedCopies(x, y);
    AddCancels(x, y, x << 15);
  }

  lemma Up3IsInjective(x: bv32, y: bv32)
    requires Up3(x) == Up3(y)
    ensures x == y
  {
  }

  lemma Shr6OfXor(x: bv32, y: bv32)
    ensures Shr6(Xor(x, y)) == Xor(Shr6(x), Shr6(y))
  {
  }

  lemma Shr11OfXor(x: bv32, y: bv32)
    ensures Shr11(Xor(x, y)) == Xor(Shr11(x), Shr11(y))
  {
  }

  lemma ShrsRunOut(x: bv32)
    ensures Shr6(Shr6(Shr6(Shr6(Shr6(Shr6(x)))))) == 0 && Shr11(Shr11(Shr11(x))) == 0
  {
  }

  lemma XorExchange(x: bv32, y: bv32, u: bv32, v: bv32)
    requires Xor(x, u) == Xor(y, v)
    ensures Xor(x, y) == Xor(u, v)
  {
    hide Xor;
    var e := Xor(x, u);
    XorLaws(x, u, 0);
    XorLaws(u, x, 0);
    XorLaws(y, v, 0);
    XorLaws(v, y, 0);
    XorLaws(v, e, 0);
    XorLaws(u, e, Xor(e, v));
    XorLaws(e, v, 0);
  }

  /** If two values mix down alike, their difference is its own shifted copy, hence zero. */
  lemma DownsAreInjective(x: bv32, y: bv32)
    ensures Down6(x) == Down6(y) ==> x == y
    ensures Down11(x) == Down11(y) ==> x == y
  {
    hide Xor, Shr6, Shr11;
    var d := Xor(x, y);
    Shr6OfXor(x, y);
    Shr11OfXor(x, y);
    ShrsRunOut(d);
    XorLaws(x, y, 0);
    XorLaws(x, 0, 0);
    if Down6(x) == Down6(y) { XorExchange(x, y, Shr6(x), Shr6(y)); }
    if Down11(x) == Down11(y) { XorExchange(x, y, Shr11(x), Shr11(y)); }
  }

  lemma AbsorbSeparates(h: bv32, g: bv32, a: bv8, b: bv8)
    requires Absorb(h, a) == Absorb(g, b)
    ensures a == b ==> h == g
    ensures h == g ==> a == b
  {
    hide Absorb, Retract, Reveal8;
    AbsorbUndone(h, a);
    AbsorbUndone(g, b);
  }

  function Retract(y: bv32, b: bv8): bv32 { y - (b as bv32) }
  function Reveal8(y: bv32, h: bv32): bv8 { ((y - h) & 0xFF) as bv8 }

  lemma AbsorbUndone(h: bv32, b: bv8)
    ensures Retract(Absorb(h, b), b) == h && Reveal8(Absorb(h, b), h) == b
  {
    assert (h + (b as bv32)) - h == b as bv32;
  }

  lemma JenkinsByteSeparates(h: bv32, g: bv32, a: bv8, b: bv8)
    requires JenkinsByte(h, a) == JenkinsByte(g, b)
    ensures a == b ==> h == g
    ensures h == g ==> a == b
  {
    hide Absorb, Up10, Down6;
    var x, y := Absorb(h, a), Absorb(g, b);
    DownsAreInjective(Up10(x), Up10(y));
    Up10IsInjective(x, y);
    AbsorbSeparates(h, g, a, b);
  }

  lemma {:induction false} JenkinsFeedIsInjective(h: bv32, g: bv32, data: seq<bv8>)
    requires JenkinsFeed(h, data) == JenkinsFeed(g, data)
    ensures h == g
    decreases |data|
  {
    hide JenkinsByte;
    if data != [] {
      JenkinsFeedIsInjective(JenkinsByte(h, data[0]), JenkinsByte(g, data[0]), data[1..]);
      JenkinsByteSeparates(h, g, data[0], data[0]);
    }
  }

  lemma {:induction false} JenkinsFeedSplits(h: bv32, a: seq<bv8>, b: seq<bv8>)
    ensures JenkinsFeed(h, a + b) == JenkinsFeed(JenkinsFeed(h, a), b)
    decreases |a|
  {
    hide JenkinsByte;
    if a == [] {
      assert a + b == b;
    } else {
      assert (a + b)[1..] == a[1..] + b;
      JenkinsFeedSplits(JenkinsByte(h, a[0]), a[1..], b);
    }
  }

  lemma EndIsInjective(h: bv32, g: bv32)
    requires Up15(Down11(Up3(h))) == Up15(Down11(Up3(g)))
    ensures h == g
  {
    hide Up15, Down11, Up3;
    Up15IsInjective(Down11(Up3(h)), Down11(Up3(g)));
    DownsAreInjective(Up3(h), Up3(g));
    Up3IsInjective(h, g);
  }

  /** Two messages of one length that differ in one byte never have the same Jenkins hash. */
  lemma JenkinsSeparatesByte(p: seq<bv8>, q: seq<bv8>, k: nat)
    requires |p| == |q| && k < |p|
    requires p[..k] == q[..k] && p[k + 1..] == q[k + 1..]
    requires Jenkins(p) == Jenkins(q)
    ensures p == q
  {
    hide JenkinsByte, Up15, Down11, Up3;
    var tail := p[k + 1..];
    assert p == p[..k] + ([p[k]] + tail) && q == p[..k] + ([q[k]] + tail);
    var h := JenkinsFeed(0, p[..k]);
    JenkinsFeedSplits(0, p[..k], [p[k]] + tail);
    JenkinsFeedSplits(0, p[..k], [q[k]] + tail);
    assert ([p[k]] + tail)[1..] == tail && ([q[k]] + tail)[1..] == tail;
    EndIsInjective(JenkinsFeed(0, p), JenkinsFeed(0, q));
    JenkinsFeedIsInjective(JenkinsByte(h, p[k]), JenkinsByte(h, q[k]), tail);
    JenkinsByteSeparates(h, h, p[k], q[k]);
  }

  /** The published value of the hash of the letter a. */
  lemma JenkinsCheckValue()
    ensures Jenkins([0x61]) == 0xCA2E9442
  {
    var data: seq<bv8> := [0x61];
    assert data[1..] == [];
    assert JenkinsFeed(0, data) == JenkinsFeed(JenkinsByte(0, 0x61), []) == JenkinsByte(0, 0x61);
    assert JenkinsByte(0, 0x61) == 0x18270;
  }
}
