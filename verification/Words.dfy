/** Fixed-width machine integers, written as bounded integers, and the byte order used on the wire. */
module Words {
  const TWO_32 := 0x1_0000_0000

  type uint8 = x: int | 0 <= x < 256
  type uint16 = x: int | 0 <= x < 65536
  type uint32 = x: int | 0 <= x < TWO_32
  type Mac = m: seq<uint8> | |m| == 6 witness [0, 0, 0, 0, 0, 0]

  datatype Option<+T> = None | Some(value: T)

  /** The return codes of the hardware abstraction layer. */
  datatype HalCode = HalOk | HalBusy | HalFull | HalInval | HalTimeout

  /** The four big-endian bytes of a 32-bit value. */
  function Be32(v: uint32): (b: seq<uint8>)
    ensures |b| == 4
  {
    [v / 0x100_0000, v / 0x1_0000 % 256, v / 256 % 256, v % 256]
  }

  function ReadBe32(s: seq<uint8>, off: nat): uint32
    requires off + 4 <= |s|
  {
    var a: int, b: int, c: int := s[off], s[off + 1], s[off + 2];
    a * 0x100_0000 + b * 0x1_0000 + c * 256 + s[off + 3]
  }

  function ReadBe16(s: seq<uint8>, off: nat): uint16
    requires off + 2 <= |s|
  {
    var hi: int := s[off];
    hi * 256 + s[off + 1]
  }

  lemma Be32Sum(v: uint32)
    ensures v / 0x100_0000 * 0x100_0000 + v / 0x1_0000 % 256 * 0x1_0000 + v / 256 % 256 * 256 + v % 256 == v
  {
    var w := v / 256;
    assert v / 0x1_0000 == w / 256 && v / 0x100_0000 == w / 0x1_0000;
  }

  lemma SameFourBytes(s: seq<uint8>, i: nat, t: seq<uint8>, j: nat)
    requires i + 4 <= |s| && j + 4 <= |t| && s[i..i + 4] == t[j..j + 4]
    ensures ReadBe32(s, i) == ReadBe32(t, j)
  {
    assert s[i..i + 4][0] == t[j..j + 4][0] && s[i..i + 4][1] == t[j..j + 4][1];
    assert s[i..i + 4][2] == t[j..j + 4][2] && s[i..i + 4][3] == t[j..j + 4][3];
  }

  lemma Be32RoundTrip(s: seq<uint8>, off: nat, v: uint32)
    requires off + 4 <= |s| && s[off..off + 4] == Be32(v)
    ensures ReadBe32(s, off) == v
  {
    assert s[off..off + 4][0] == s[off];
    assert s[off..off + 4][1] == s[off + 1];
    assert s[off..off + 4][2] == s[off + 2];
    assert s[off..off + 4][3] == s[off + 3];
    Be32Sum(v);
  }

  // ----- exclusive or of bounded integers, bit by bit

  function Pow2(n: nat): nat { if n == 0 then 1 else 2 * Pow2(n - 1) }

  function Xor(a: nat, b: nat, bits: nat): (r: nat)
    requires a < Pow2(bits) && b < Pow2(bits)
    ensures r < Pow2(bits)
  {
    if bits == 0 then 0 else 2 * Xor(a / 2, b / 2, bits - 1) + (a + b) % 2
  }

  function Xor8(a: uint8, b: uint8): uint8 { Xor(a, b, 8) }

  lemma {:induction false} XorCancels(a: nat, b: nat, c: nat, bits: nat)
    requires a < Pow2(bits) && b < Pow2(bits) && c < Pow2(bits)
    requires Xor(a, b, bits) == Xor(a, c, bits)
    ensures b == c
  {
    if bits > 0 {
      SameHalves(Xor(a / 2, b / 2, bits - 1), Xor(a / 2, c / 2, bits - 1), (a + b) % 2, (a + c) % 2);
      XorCancels(a / 2, b / 2, c / 2, bits - 1);
      SameParity(a, b, c);
    }
  }

  lemma SameHalves(x: nat, y: nat, p: nat, q: nat)
    requires p < 2 && q < 2 && 2 * x + p == 2 * y + q
    ensures x == y && p == q
  {
  }

  lemma SameParity(a: nat, b: nat, c: nat)
    requires (a + b) % 2 == (a + c) % 2 && b / 2 == c / 2
    ensures b == c
  {
  }

  lemma {:induction false} XorCommutes(a: nat, b: nat, bits: nat)
    requires a < Pow2(bits) && b < Pow2(bits)
    ensures Xor(a, b, bits) == Xor(b, a, bits)
  {
    if bits > 0 { XorCommutes(a / 2, b / 2, bits - 1); }
  }

  lemma {:induction false} XorWithSelf(a: nat, bits: nat)
    requires a < Pow2(bits)
    ensures Xor(a, a, bits) == 0
  {
    if bits > 0 { XorWithSelf(a / 2, bits - 1); }
  }

  lemma {:induction false} XorWithZero(a: nat, bits: nat)
    requires a < Pow2(bits)
    ensures Pow2(bits) > 0 && Xor(a, 0, bits) == a
  {
    if bits > 0 { XorWithZero(a / 2, bits - 1); }
  }
}
