/** How a firmware table entry becomes an entry of the hardware (tb/cosim/cosim_main.cpp): bytes packed into words, the
    mask inverted, and the action id recoded. The two kinds of match are compared byte by byte. */
module RtlTranslation {
  import opened Words
  import opened Bits
  import opened Hal
  import opened SimHal
  import opened MauTcam
  import opened MauAlu
  import PktModel
  import TueDriver

  // ----- the translation

  /** The hardware mask byte: a set bit is a don't-care, and so is everything past the mask's length. */
  function RtlMaskByte(m: TcamKey, i: nat): uint8
    requires i < 64
  {
    if i < m.len then 255 - m.bytes[i] else 255
  }

  function RtlMask(m: TcamKey): KeyBytes { seq(64, i requires 0 <= i < 64 => RtlMaskByte(m, i)) }

  function RtlActionId(id: uint16): uint16 {
    if id == PktModel.ACTION_FORWARD || id == PktModel.ACTION_L2_FORWARD || id == PktModel.ACTION_FLOOD then 0xA000
    else if id == PktModel.ACTION_DROP || id == PktModel.ACTION_DENY then 0x9000
    else 0
  }

  function Shifted(b: uint8): uint32 {
    var v: int := b;
    v * 0x1_0000
  }

  function RtlP0(id: uint16, params: ParamBytes): uint32 {
    if id == PktModel.ACTION_FORWARD || id == PktModel.ACTION_L2_FORWARD then Shifted(params[0])
    else if id == PktModel.ACTION_FLOOD then 0xFF_0000
    else 0
  }

  function RtlEntry(e: TcamEntry): Entry {
    Entry(Packed(Used(e.key)), Packed(RtlMask(e.mask)), RtlActionId(e.actionId), e.tableId, true)
  }

  function RtlRow(e: TcamEntry): Action { Action(RtlActionId(e.actionId), 0, 0, 0, RtlP0(e.actionId, e.params)) }

  /** 256 to the power `b`. */
  function PowByte(b: nat): nat
    requires b <= 4
  {
    if b == 0 then 1 else if b == 1 then 0x100 else if b == 2 then 0x1_0000 else if b == 3 then 0x100_0000 else TWO_32
  }

  /** The value of the low `n` bytes of a word. */
  function LowBytes(s: KeyBytes, w: nat, n: nat): (v: nat)
    requires w < 16 && n <= 4
    ensures v < PowByte(n)
  {
    if n == 0 then 0
    else
      var b: int := s[4 * w + n - 1];
      LowBytes(s, w, n - 1) + b * PowByte(n - 1)
  }

  lemma FourBytesAreWord(s: KeyBytes, w: nat)
    requires w < 16
    ensures LowBytes(s, w, 4) == WordAt(s, w)
  {
    assert LowBytes(s, w, 1) == s[4 * w];
    assert LowBytes(s, w, 3) == LowBytes(s, w, 2) + s[4 * w + 2] as int * 0x1_0000;
  }

  /** Assembles a key word byte by byte. */
  method KeyWord(k: TcamKey, w: nat) returns (word: uint32)
    requires w < 16
    ensures word == WordAt(Used(k), w)
  {
    var v := 0;
    for b := 0 to 4
      invariant v == LowBytes(Used(k), w, b)
    {
      var idx := w * 4 + b;
      if idx < 64 && idx < k.len {
        var x: int := k.bytes[idx];
        v := v + x * PowByte(b);
      }
    }
    FourBytesAreWord(Used(k), w);
    word := v;
  }

  /** Assembles a mask word: all don't-care, then each byte in use replaced by its complement. */
  method MaskWord(m: TcamKey, w: nat) returns (word: uint32)
    requires w < 16
    ensures word == WordAt(RtlMask(m), w)
  {
    var v: int := 0xFFFF_FFFF;
    for b := 0 to 4
      invariant v == LowBytes(RtlMask(m), w, b) + (TWO_32 - PowByte(b))
    {
      var idx := w * 4 + b;
      if idx < m.len {
        var rtl: int := 255 - m.bytes[idx];
        v := v - 255 * PowByte(b) + rtl * PowByte(b);
      }
    }
    FourBytesAreWord(RtlMask(m), w);
    word := v;
  }

  /** The whole translation, refused for stages the firmware does not use. */
  method Translate(e: TcamEntry) returns (r: Option<(Entry, Action)>)
    ensures r == if e.stage >= 7 then None else Some((RtlEntry(e), RtlRow(e)))
  {
    if e.stage >= 7 { return None; }
    var key: seq<uint32>, mask: seq<uint32> := [], [];
    for w := 0 to 16
      invariant |key| == w && forall i :: 0 <= i < w ==> key[i] == WordAt(Used(e.key), i)
    {
      var word := KeyWord(e.key, w);
      key := key + [word];
    }
    for w := 0 to 16
      invariant |mask| == w && forall i :: 0 <= i < w ==> mask[i] == WordAt(RtlMask(e.mask), i)
    {
      var word := MaskWord(e.mask, w);
      mask := mask + [word];
    }
    assert key == Packed(Used(e.key)) && mask == Packed(RtlMask(e.mask));
    r := Some((Entry(key, mask, RtlActionId(e.actionId), e.tableId, true),
               Action(RtlActionId(e.actionId), 0, 0, 0, RtlP0(e.actionId, e.params))));
  }

  // ----- the match of packed words is the match of their bytes

  lemma NotWord(b0: uint8, b1: uint8, b2: uint8, b3: uint8)
    ensures Pow2(32) == TWO_32 && Not(LeWord(b0, b1, b2, b3), 32) == LeWord(255 - b0, 255 - b1, 255 - b2, 255 - b3)
  {
    Word32();
  }

  /** The bytes of a word, most significant first. */
  function BigEnd(s: KeyBytes, w: nat): (b: seq<uint8>)
    requires w < 16
    ensures |b| == 4
  {
    [s[4 * w + 3], s[4 * w + 2], s[4 * w + 1], s[4 * w]]
  }

  lemma BigEndValue(s: KeyBytes, w: nat)
    requires w < 16
    ensures Horner(BigEnd(s, w), 0, 4) == WordAt(s, w)
  {
    HornerOfFour(BigEnd(s, w), 0);
    hide Horner;
  }

  lemma BigEndAgrees(k: KeyBytes, t: KeyBytes, m: KeyBytes, w: nat)
    requires w < 16
    ensures BytesAgree(BigEnd(k, w), BigEnd(t, w), BigEnd(m, w), 0, 4) <==> BytesAgree(k, t, m, 4 * w, 4)
  {
    hide And8;
    var a, b, c, i := BigEnd(k, w), BigEnd(t, w), BigEnd(m, w), 4 * w;
    if BytesAgree(a, b, c, 0, 4) {
      assert And8(a[0], c[0]) == And8(b[0], c[0]) && And8(a[1], c[1]) == And8(b[1], c[1]);
      assert And8(a[2], c[2]) == And8(b[2], c[2]) && And8(a[3], c[3]) == And8(b[3], c[3]);
    }
    if BytesAgree(k, t, m, i, 4) {
      assert And8(k[i], m[i]) == And8(t[i], m[i]) && And8(k[i + 1], m[i + 1]) == And8(t[i + 1], m[i + 1]);
      assert And8(k[i + 2], m[i + 2]) == And8(t[i + 2], m[i + 2])
        && And8(k[i + 3], m[i + 3]) == And8(t[i + 3], m[i + 3]);
    }
  }

  lemma WordsAgree(k: KeyBytes, t: KeyBytes, m: KeyBytes, w: nat)
    requires w < 16
    ensures Pow2(32) == TWO_32
    ensures Agree(WordAt(k, w), WordAt(t, w), WordAt(m, w), 32) <==> BytesAgree(k, t, m, 4 * w, 4)
  {
    Word32();
    hide Agree, Horner, WordAt, And8, Pow2, BigEnd, BytesAgree;
    BigEndValue(k, w);
    BigEndValue(t, w);
    BigEndValue(m, w);
    BigEndAgrees(k, t, m, w);
    FourAgree(BigEnd(k, w), BigEnd(t, w), BigEnd(m, w));
  }

  lemma FourAgree(a: seq<uint8>, b: seq<uint8>, m: seq<uint8>)
    requires |a| == |b| == |m| == 4
    ensures Horner(a, 0, 4) < Pow2(32) && Horner(b, 0, 4) < Pow2(32) && Horner(m, 0, 4) < Pow2(32)
    ensures Agree(Horner(a, 0, 4), Horner(b, 0, 4), Horner(m, 0, 4), 32) <==> BytesAgree(a, b, m, 0, 4)
  {
    hide Agree, Horner, Pow2, BytesAgree;
    HornerAgrees(a, b, m, 0, 4);
  }

  /** Byte by byte, with the mask inverted: a hardware match leaves no difference outside the don't-cares. */
  function Inverted(m: KeyBytes): KeyBytes { seq(64, i requires 0 <= i < 64 => InvertedByte(m[i])) }

  function InvertedByte(b: uint8): uint8 { 255 - b }

  lemma WordMatchesIff(k: KeyBytes, t: KeyBytes, m: KeyBytes, w: nat)
    requires w < 16
    ensures WordMatches(WordAt(k, w), WordAt(t, w), WordAt(m, w)) <==> BytesAgree(k, t, Inverted(m), 4 * w, 4)
  {
    var i := 4 * w;
    NotWord(m[i], m[i + 1], m[i + 2], m[i + 3]);
    var inv := Inverted(m);
    assert WordAt(inv, w) == Not(WordAt(m, w), 32);
    AgreeIffNoDifference(WordAt(k, w), WordAt(t, w), WordAt(inv, w), 32);
    WordsAgree(k, t, inv, w);
    hide Agree, And, Xor, Not, WordAt, BytesAgree, Inverted, Pow2;
  }

  /** The 512-bit ternary match is the comparison of all 64 bytes under the inverted mask. */
  lemma MatchesIff(k: KeyBytes, t: KeyBytes, m: KeyBytes, id: uint16, ptr: uint16)
    ensures Matches(Entry(Packed(t), Packed(m), id, ptr, true), Packed(k)) <==> BytesAgree(k, t, Inverted(m), 0, 64)
  {
    forall w | 0 <= w < 16
      ensures WordMatches(WordAt(k, w), WordAt(t, w), WordAt(m, w)) <==> BytesAgree(k, t, Inverted(m), 4 * w, 4)
    {
      WordMatchesIff(k, t, m, w);
    }
    hide WordMatches, WordAt, And8, Inverted;
    AllWordsAllBytes(k, t, Inverted(m));
  }

  lemma AllWordsAllBytes(k: KeyBytes, t: KeyBytes, m: KeyBytes)
    ensures (forall w :: 0 <= w < 16 ==> BytesAgree(k, t, m, 4 * w, 4)) <==> BytesAgree(k, t, m, 0, 64)
  {
    hide And8;
    if forall w :: 0 <= w < 16 ==> BytesAgree(k, t, m, 4 * w, 4) {
      forall i | 0 <= i < 64 ensures And8(k[i], m[i]) == And8(t[i], m[i]) {
        assert BytesAgree(k, t, m, 4 * (i / 4), 4);
      }
    }
  }

  // ----- when the two matches agree

  /** The bits the software match compares. */
  function SoftMask(e: TcamEntry, keyLen: uint8): KeyBytes {
    seq(64, i requires 0 <= i < 64 => SoftMaskByte(e, keyLen, i))
  }

  function SoftMaskByte(e: TcamEntry, keyLen: uint8, i: nat): uint8
    requires i < 64
  {
    if i < CmpLen(e, keyLen) then e.mask.bytes[i] else 0
  }

  /** The bits the hardware match compares. */
  function HardMask(e: TcamEntry): KeyBytes { Inverted(RtlMask(e.mask)) }

  lemma HardMaskBytes(e: TcamEntry, i: nat)
    requires i < 64
    ensures HardMask(e)[i] == if i < e.mask.len then e.mask.bytes[i] else 0
  {
  }

  lemma SoftMatchIff(e: TcamEntry, k: KeyBytes, keyLen: uint8)
    requires keyLen <= 64
    ensures EntryMatches(e, k, keyLen) <==> BytesAgree(k, Used(e.key), SoftMask(e, keyLen), 0, 64)
  {
    Byte8();
    forall i | 0 <= i < 64 ensures And8(k[i], 0) == And8(Used(e.key)[i], 0) {
      AndZero(k[i], 8);
      AndZero(Used(e.key)[i], 8);
    }
    hide And8;
    var m := SoftMask(e, keyLen);
    forall i | 0 <= i < CmpLen(e, keyLen) ensures m[i] == e.mask.bytes[i] && Used(e.key)[i] == e.key.bytes[i] {}
    if EntryMatches(e, k, keyLen) {
      forall i | 0 <= i < 64 ensures And8(k[i], m[i]) == And8(Used(e.key)[i], m[i]) {
        if i < CmpLen(e, keyLen) { assert ByteMatches(e, k, i); }
      }
    }
  }

  lemma HardMatchIff(e: TcamEntry, k: KeyBytes)
    ensures Matches(RtlEntry(e), Packed(k)) <==> BytesAgree(k, Used(e.key), HardMask(e), 0, 64)
  {
    MatchesIff(k, Used(e.key), RtlMask(e.mask), RtlActionId(e.actionId), e.tableId);
    hide Matches, BytesAgree, Inverted, Packed, Used, RtlMask, RtlActionId;
  }

  /** Two masks that differ are told apart by some value. */
  lemma {:induction false} TellApart(t: nat, m: nat, n: nat, bits: nat) returns (x: nat)
    requires t < Pow2(bits) && m < Pow2(bits) && n < Pow2(bits) && m != n
    ensures x < Pow2(bits) && Agree(x, t, m, bits) != Agree(x, t, n, bits)
  {
    if m % 2 != n % 2 {
      x := t / 2 * 2 + (1 - t % 2);
      AgreeWithSelf(t / 2, m / 2, bits - 1);
      AgreeWithSelf(t / 2, n / 2, bits - 1);
      FlipLow(t);
    } else {
      var h := TellApart(t / 2, m / 2, n / 2, bits - 1);
      x := 2 * h + t % 2;
      LowKept(h, t);
    }
  }

  lemma FlipLow(t: nat)
    ensures var x := t / 2 * 2 + (1 - t % 2); x / 2 == t / 2 && x % 2 != t % 2
  {
  }

  lemma LowKept(h: nat, t: nat)
    ensures (2 * h + t % 2) / 2 == h && (2 * h + t % 2) % 2 == t % 2
  {
  }

  lemma {:induction false} AgreeWithSelf(t: nat, m: nat, bits: nat)
    requires t < Pow2(bits) && m < Pow2(bits)
    ensures Agree(t, t, m, bits)
  {
    if bits > 0 { AgreeWithSelf(t / 2, m / 2, bits - 1); }
  }

  lemma TellBytesApart(t: uint8, m: uint8, n: uint8) returns (x: uint8)
    requires m != n
    ensures (And8(x, m) == And8(t, m)) != (And8(x, n) == And8(t, n))
  {
    Byte8();
    var y := TellApart(t, m, n, 8);
    x := y;
    AgreeIffSameMasked(x, t, m, 8);
    AgreeIffSameMasked(x, t, n, 8);
    hide Agree, And, Pow2;
  }

  lemma DifferentMasksDiffer(t: KeyBytes, m: KeyBytes, n: KeyBytes) returns (k: KeyBytes)
    requires m != n
    ensures BytesAgree(k, t, m, 0, 64) != BytesAgree(k, t, n, 0, 64)
  {
    var i :| 0 <= i < 64 && m[i] != n[i];
    var x := TellBytesApart(t[i], m[i], n[i]);
    k := t[i := x];
    hide And8;
    OneByteDecides(k, t, m, i);
    OneByteDecides(k, t, n, i);
    hide BytesAgree;
  }

  lemma OneByteDecides(k: KeyBytes, t: KeyBytes, m: KeyBytes, i: nat)
    requires i < 64 && k == t[i := k[i]]
    ensures BytesAgree(k, t, m, 0, 64) <==> And8(k[i], m[i]) == And8(t[i], m[i])
  {
    hide And8;
    forall j | 0 <= j < 64 && j != i ensures k[j] == t[j] {}
  }

  /** The translation preserves the match of every packet key if and only if the two sides compare the same bits: within
      the compared length the mask must be in use, and past it the mask must be zero where it is. */
  lemma TranslationPreservesMatchIff(e: TcamEntry, keyLen: uint8)
    requires keyLen <= 64
    ensures (forall k: KeyBytes :: EntryMatches(e, k, keyLen) == Matches(RtlEntry(e), Packed(k)))
       <==> SoftMask(e, keyLen) == HardMask(e)
  {
    forall k: KeyBytes
      ensures EntryMatches(e, k, keyLen) <==> BytesAgree(k, Used(e.key), SoftMask(e, keyLen), 0, 64)
      ensures Matches(RtlEntry(e), Packed(k)) <==> BytesAgree(k, Used(e.key), HardMask(e), 0, 64)
    {
      SoftMatchIff(e, k, keyLen);
      HardMatchIff(e, k);
    }
    hide EntryMatches, Matches, BytesAgree, Packed, Used, SoftMask, HardMask, RtlEntry;
    if SoftMask(e, keyLen) != HardMask(e) {
      var k := DifferentMasksDiffer(Used(e.key), SoftMask(e, keyLen), HardMask(e));
      assert EntryMatches(e, k, keyLen) != Matches(RtlEntry(e), Packed(k));
    }
  }

  /** Every module of the firmware gives key and mask the same length, which is enough. */
  lemma EqualLengthsSuffice(e: TcamEntry, keyLen: uint8)
    requires e.mask.len == e.key.len <= keyLen
    ensures SoftMask(e, keyLen) == HardMask(e)
  {
    forall i | 0 <= i < 64 ensures SoftMask(e, keyLen)[i] == HardMask(e)[i] { HardMaskBytes(e, i); }
  }

  /** The bits the hardware compares when the memory-mapped driver installed the entry: it packs the mask as it stands,
      though the hardware reads a set bit as a don't-care. */
  function DriverMask(e: TcamEntry): KeyBytes { Inverted(Used(e.mask)) }

  lemma DriverMatchIff(e: TcamEntry, k: KeyBytes)
    ensures Matches(TueDriver.InstalledEntry(e), Packed(k)) <==> BytesAgree(k, Used(e.key), DriverMask(e), 0, 64)
  {
    MatchesIff(k, Used(e.key), Used(e.mask), e.actionId, e.tableId);
    hide Matches, BytesAgree, Packed, Used, Inverted;
  }

  /** All mask bytes are ones, and either nothing is compared in software and nothing in hardware, because the whole
      mask is in use, or every byte is compared on both sides, because none of it is. */
  predicate DriverAgrees(e: TcamEntry, keyLen: uint8) {
    && (forall i :: 0 <= i < 64 ==> e.mask.bytes[i] == 0xFF)
    && ((CmpLen(e, keyLen) == 0 && e.mask.len >= 64) || (CmpLen(e, keyLen) == 64 && e.mask.len == 0))
  }

  lemma DriverMaskBytes(e: TcamEntry, keyLen: uint8, i: nat)
    requires i < 64
    ensures SoftMask(e, keyLen)[i] == DriverMask(e)[i] <==>
      e.mask.bytes[i] == 0xFF && (i < CmpLen(e, keyLen) <==> i >= e.mask.len)
  {
  }

  lemma DriverMaskIff(e: TcamEntry, keyLen: uint8)
    requires keyLen <= 64
    ensures SoftMask(e, keyLen) == DriverMask(e) <==> DriverAgrees(e, keyLen)
  {
    forall i | 0 <= i < 64
      ensures SoftMask(e, keyLen)[i] == DriverMask(e)[i] <==>
        e.mask.bytes[i] == 0xFF && (i < CmpLen(e, keyLen) <==> i >= e.mask.len)
    {
      DriverMaskBytes(e, keyLen, i);
    }
    hide SoftMask, DriverMask;
    if SoftMask(e, keyLen) == DriverMask(e) {
      var m := SoftMask(e, keyLen);
      assert m[0] == DriverMask(e)[0] && m[63] == DriverMask(e)[63];
    }
  }

  /** What the driver installs matches the same packet keys as the firmware entry only in two degenerate cases, both
      with a mask of ones: an entry that compares nothing, and one whose mask length is zero though all 64 bytes count.
      */
  lemma DriverPreservesMatchIff(e: TcamEntry, keyLen: uint8)
    requires keyLen <= 64
    ensures (forall k: KeyBytes :: EntryMatches(e, k, keyLen) == Matches(TueDriver.InstalledEntry(e), Packed(k)))
       <==> DriverAgrees(e, keyLen)
  {
    DriverMaskIff(e, keyLen);
    forall k: KeyBytes
      ensures EntryMatches(e, k, keyLen) <==> BytesAgree(k, Used(e.key), SoftMask(e, keyLen), 0, 64)
      ensures Matches(TueDriver.InstalledEntry(e), Packed(k)) <==> BytesAgree(k, Used(e.key), DriverMask(e), 0, 64)
    {
      SoftMatchIff(e, k, keyLen);
      DriverMatchIff(e, k);
    }
    hide EntryMatches, Matches, BytesAgree, Packed, Used, SoftMask, DriverMask, DriverAgrees, TueDriver.InstalledEntry;
    if SoftMask(e, keyLen) != DriverMask(e) {
      var k := DifferentMasksDiffer(Used(e.key), SoftMask(e, keyLen), DriverMask(e));
      assert EntryMatches(e, k, keyLen) != Matches(TueDriver.InstalledEntry(e), Packed(k));
    }
  }

  /** So whatever it installs with fewer than 64 key and mask bytes, some packet key is matched by one side only. */
  lemma DriverMaskDisagrees(e: TcamEntry, keyLen: uint8) returns (k: KeyBytes)
    requires keyLen <= 64 && CmpLen(e, keyLen) < 64 && e.mask.len < 64
    ensures EntryMatches(e, k, keyLen) != Matches(TueDriver.InstalledEntry(e), Packed(k))
  {
    DriverPreservesMatchIff(e, keyLen);
    hide EntryMatches, Matches, Packed, TueDriver.InstalledEntry;
    k :| EntryMatches(e, k, keyLen) != Matches(TueDriver.InstalledEntry(e), Packed(k));
  }

  /** What the memory-mapped driver installs for an action, by its twelve parameter bytes: the destination is always
      byte 0, the width is in the second byte and the immediate in the third to the sixth, lowest first. */
  lemma DriverActionMeans(e: TcamEntry)
    ensures var a, q := TueDriver.InstalledRow(e), e.params;
      && a.Op() == e.actionId / 0x1000 && a.DstOff() == 0 && a.Width() == q[1]
      && a.Imm() == q[2] as int + 0x100 * q[3] as int + 0x1_0000 * q[4] as int + 0x100_0000 * q[5] as int
      && a.SrcOff() ==
        (q[8] as int + 0x100 * q[9] as int + 0x1_0000 * q[10] as int + 0x100_0000 * q[11] as int) / 64 % 1024
  {
    var q := e.params;
    var a0: int, a1: int, a2: int, a3: int := q[0], q[1], q[2], q[3];
    var w0 := a0 + a1 * 0x100 + a2 * 0x1_0000 + a3 * 0x100_0000;
    assert WordAt(q, 0) == w0;
    assert w0 / 0x100 == a1 + 0x100 * a2 + 0x1_0000 * a3 && w0 / 0x1_0000 == a2 + 0x100 * a3;
    var b0: int, b1: int, b2: int, b3: int := q[4], q[5], q[6], q[7];
    var w1 := b0 + b1 * 0x100 + b2 * 0x1_0000 + b3 * 0x100_0000;
    assert WordAt(q, 1) == w1 && w1 == (b0 + b1 * 0x100) + 0x1_0000 * (b2 + b3 * 0x100);
    assert WordAt(q, 2) == q[8] as int + 0x100 * q[9] as int + 0x1_0000 * q[10] as int + 0x100_0000 * q[11] as int;
    hide WordAt;
  }

  // ----- what the translated action does

  /** The forwarding actions choose the same output port on both sides if and only if the port fits in five bits; a
      flood never does. */
  lemma PortActionsAgreeIff(e: TcamEntry, p: PktModel.Phv, f: Flit, hash: uint32)
    requires e.actionId == PktModel.ACTION_FORWARD || e.actionId == PktModel.ACTION_L2_FORWARD
          || e.actionId == PktModel.ACTION_FLOOD
    ensures Alu(RtlRow(e), true, f, hash).meta.egPort == PktModel.Applied(p, e).egPort
       <==> e.actionId != PktModel.ACTION_FLOOD && e.params[0] < 32
  {
    var row := RtlRow(e);
    assert row.Op() == OP_SET_PORT;
    PortImmediate(e);
    hide NewPhv;
  }

  lemma PortImmediate(e: TcamEntry)
    ensures e.actionId == PktModel.ACTION_FORWARD || e.actionId == PktModel.ACTION_L2_FORWARD ==>
      RtlRow(e).Imm() == e.params[0]
    ensures e.actionId == PktModel.ACTION_FLOOD ==> RtlRow(e).Imm() == 0xFF
  {
  }

  /** The dropping actions drop on both sides, and a permit does nothing on either. */
  lemma VerdictsAgree(e: TcamEntry, p: PktModel.Phv, f: Flit, hash: uint32)
    requires e.actionId in {PktModel.ACTION_DROP, PktModel.ACTION_DENY, PktModel.ACTION_PERMIT}
    requires p.drop == f.meta.drop
    ensures Alu(RtlRow(e), true, f, hash) == f.(meta := f.meta.(drop := PktModel.Applied(p, e).drop))
  {
    var row := RtlRow(e);
    assert row.Op() == if e.actionId == PktModel.ACTION_PERMIT then 0 else OP_DROP;
    assert Result(row, f.phv, hash, Bytes(row.Op(), row.Width())) == None;
  }
}
