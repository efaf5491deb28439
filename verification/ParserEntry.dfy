/** The 640-bit entries of the parser's ternary memory, and the builder that writes their fields bit by bit into twenty
    32-bit words (tb/cosim/cosim_main.cpp). */
module ParserEntry {
  import opened Words
  import opened Bits

  const ENTRY_BITS: nat := 640

  function SetBit(v: nat, i: nat, b: nat): nat
    requires b < 2
  {
    if i == 0 then v / 2 * 2 + b else 2 * SetBit(v / 2, i - 1, b) + v % 2
  }

  lemma {:induction false} BitOfSetBit(v: nat, i: nat, b: nat, j: nat)
    requires b < 2
    ensures Bit(SetBit(v, i, b), j) == if i == j then b else Bit(v, j)
  {
    Halves(v, b);
    if i > 0 {
      Doubled(SetBit(v / 2, i - 1, b), v % 2);
      if j > 0 { BitOfSetBit(v / 2, i - 1, b, j - 1); }
    }
  }

  lemma Halves(v: nat, b: nat)
    requires b < 2
    ensures (v / 2 * 2 + b) / 2 == v / 2 && (v / 2 * 2 + b) % 2 == b
  {
  }

  /** Setting a bit is an or with a shifted one; clearing it is an and with the complement. */
  lemma {:induction false} OrSetsBit(v: nat, i: nat, bits: nat)
    requires i < bits && v < Pow2(bits)
    ensures Pow2(i) < Pow2(bits) && Or(v, Pow2(i), bits) == SetBit(v, i, 1)
  {
    if i == 0 {
      OrZero(v / 2, bits - 1);
    } else {
      OrSetsBit(v / 2, i - 1, bits - 1);
    }
  }

  lemma {:induction false} OrZero(v: nat, bits: nat)
    requires v < Pow2(bits)
    ensures Pow2(bits) > 0 && Or(v, 0, bits) == v
  {
    if bits > 0 { OrZero(v / 2, bits - 1); }
  }

  lemma {:induction false} AndClearsBit(v: nat, i: nat, bits: nat)
    requires i < bits && v < Pow2(bits)
    ensures Pow2(i) < Pow2(bits) && And(v, Not(Pow2(i), bits), bits) == SetBit(v, i, 0)
  {
    hide And, Or;
    OrSetsBit(v, i, bits);
    NotHalves(i, bits);
    PowPositive(bits - 1);
    if i == 0 {
      AndDoubled(v, Pow2(bits - 1) - 1, 0, bits);
      AndOnes(v / 2, bits - 1);
    } else {
      hide Not;
      AndDoubled(v, Not(Pow2(i - 1), bits - 1), 1, bits);
      AndClearsBit(v / 2, i - 1, bits - 1);
    }
  }

  lemma AndDoubled(v: nat, m: nat, b: nat, bits: nat)
    requires bits > 0 && v < Pow2(bits) && m < Pow2(bits - 1) && b < 2
    ensures 2 * m + b < Pow2(bits)
      && And(v, 2 * m + b, bits) == 2 * And(v / 2, m, bits - 1) + (if b == 1 then v % 2 else 0)
  {
    Doubled(m, b);
  }

  lemma NotHalves(i: nat, bits: nat)
    requires i < bits && Pow2(i) < Pow2(bits)
    ensures i == 0 ==> Not(Pow2(i), bits) == 2 * (Pow2(bits - 1) - 1)
    ensures i > 0 ==> Pow2(i - 1) < Pow2(bits - 1) && Not(Pow2(i), bits) == 2 * Not(Pow2(i - 1), bits - 1) + 1
  {
  }

  lemma {:induction false} SetBitInRange(v: nat, i: nat, b: nat, bits: nat)
    requires b < 2 && i < bits && v < Pow2(bits)
    ensures SetBit(v, i, b) < Pow2(bits)
  {
    if i > 0 { SetBitInRange(v / 2, i - 1, b, bits - 1); }
  }

  // ----- words and bits

  /** Bit `k` of a row of words. */
  function RowBit(w: seq<uint32>, k: nat): nat
    requires k < 32 * |w|
  {
    Bit(w[k / 32], k % 32)
  }

  /** Writes the low bits of `value` into bits `lo` to `hi` of a row of words, and touches no other bit. */
  method SetBits(words: array<uint32>, hi: nat, lo: nat, value: nat)
    requires lo <= hi < 32 * words.Length
    modifies words
    ensures forall k :: 0 <= k < 32 * words.Length ==>
      RowBit(words[..], k) == if lo <= k <= hi then Bit(value, k - lo) else RowBit(old(words[..]), k)
  {
    for bit := lo to hi + 1
      invariant forall k :: 0 <= k < 32 * words.Length ==>
        RowBit(words[..], k) == if lo <= k < bit then Bit(value, k - lo) else RowBit(old(words[..]), k)
    {
      hide Bit, RowBit;
      BitIsBinary(value, bit - lo);
      PutBit(words, bit / 32, bit % 32, Bit(value, bit - lo));
    }
  }

  /** Sets or clears one bit. */
  method PutBit(words: array<uint32>, w: nat, b: nat, v: nat)
    requires w < words.Length && b < 32 && v < 2
    modifies words
    ensures forall k :: 0 <= k < 32 * words.Length ==>
      RowBit(words[..], k) == if k == 32 * w + b then v else RowBit(old(words[..]), k)
  {
    Word32();
    OrSetsBit(words[w], b, 32);
    AndClearsBit(words[w], b, 32);
    ghost var was := words[w];
    if v == 1 { words[w] := Or(words[w], Pow2(b), 32); } else { words[w] := And(words[w], Not(Pow2(b), 32), 32); }
    assert words[w] == SetBit(was, b, v);
    hide Bit, SetBit, Or, And, Not, Pow2;
    forall k | 0 <= k < 32 * words.Length
      ensures RowBit(words[..], k) == if k == 32 * w + b then v else RowBit(old(words[..]), k)
    {
      if k / 32 == w { BitOfSetBit(was, b, v, k % 32); }
    }
  }

  // ----- the layout of an entry

  type Entry = e: seq<bool> | |e| == 640 witness seq(640, _ => false)

  /** The entry that twenty words make. */
  function EntryOf(words: seq<uint32>): Entry
    requires |words| == 20
  {
    seq(640, k requires 0 <= k < 640 => RowBit(words, k) == 1)
  }

  /** The low bits of a value, `n` of them. */
  predicate BitSet(value: nat, i: nat) { Bit(value, i) == 1 }

  /** What each bit of a single-byte entry is to be. */
  predicate WantedBit(keyState: uint8, nextState: uint8, extractOffset: uint8, phvDst: uint16, k: nat) {
    if 634 <= k < 640 then BitSet(keyState, k - 634)
    else if 442 <= k < 506 then true
    else if 436 <= k < 442 then BitSet(nextState, k - 436)
    else if 428 <= k < 436 then BitSet(extractOffset, k - 428)
    else if 420 <= k < 428 then k == 420
    else if 410 <= k < 420 then BitSet(phvDst, k - 410)
    else k == 401
  }

  function SingleByteEntry(keyState: uint8, nextState: uint8, extractOffset: uint8, phvDst: uint16): Entry {
    seq(640, k requires 0 <= k < 640 => WantedBit(keyState, nextState, extractOffset, phvDst, k))
  }

  lemma {:induction false} ZeroHasNoBits(i: nat)
    ensures Bit(0, i) == 0
  {
    if i > 0 { ZeroHasNoBits(i - 1); }
  }

  lemma OneLessThanDouble(p: nat)
    requires p > 0
    ensures (2 * p - 1) / 2 == p - 1 && (2 * p - 1) % 2 == 1
  {
  }

  lemma {:induction false} OnesHaveAllBits(i: nat, n: nat)
    requires i < n
    ensures Pow2(n) > 0 && Bit(Pow2(n) - 1, i) == 1
  {
    PowPositive(n - 1);
    var half := Pow2(n - 1);
    assert Pow2(n) == 2 * half;
    hide Pow2;
    OneLessThanDouble(half);
    if i > 0 { OnesHaveAllBits(i - 1, n - 1); }
  }

  lemma OneIsLow(i: nat)
    ensures Bit(1, i) == if i == 0 then 1 else 0
  {
    if i > 0 { ZeroHasNoBits(i - 1); }
  }

  ghost predicate Bounded(words: seq<uint32>, keyState: uint8, nextState: uint8, extractOffset: uint8,
                          phvDst: uint16, from: nat)
    requires |words| == 20
  {
    forall k :: 0 <= k < 640 ==>
      (RowBit(words, k) == 1 <==> k >= from && WantedBit(keyState, nextState, extractOffset, phvDst, k))
  }

  /** Builds an entry: match one state exactly and any window, copy one byte of the cell, go on to the next state. */
  method MakeParserEntry(keyState: uint8, nextState: uint8, extractOffset: uint8, phvDst: uint16)
    returns (e: array<uint32>)
    ensures fresh(e) && e.Length == 20
    ensures EntryOf(e[..]) == SingleByteEntry(keyState, nextState, extractOffset, phvDst)
  {
    e := new uint32[20](_ => 0);
    forall k | 0 <= k < 640 ensures RowBit(e[..], k) == 0 { ZeroHasNoBits(k % 32); }
    hide Bit, RowBit, Pow2, BitSet;
    SetBits(e, 639, 634, keyState);
    assert Bounded(e[..], keyState, nextState, extractOffset, phvDst, 506) by { SetMeans(keyState); }
    SetAllBits(e, 505, 442);
    assert Bounded(e[..], keyState, nextState, extractOffset, phvDst, 442);
    SetBits(e, 441, 436, nextState);
    assert Bounded(e[..], keyState, nextState, extractOffset, phvDst, 436) by { SetMeans(nextState); }
    SetBits(e, 435, 428, extractOffset);
    assert Bounded(e[..], keyState, nextState, extractOffset, phvDst, 428) by { SetMeans(extractOffset); }
    SetBits(e, 427, 420, 1);
    forall i: nat ensures Bit(1, i) == if i == 0 then 1 else 0 { OneIsLow(i); }
    assert Bounded(e[..], keyState, nextState, extractOffset, phvDst, 420);
    SetBits(e, 419, 410, phvDst);
    assert Bounded(e[..], keyState, nextState, extractOffset, phvDst, 410) by { SetMeans(phvDst); }
    SetBits(e, 409, 402, 0);
    forall i: nat ensures Bit(0, i) == 0 { ZeroHasNoBits(i); }
    assert Bounded(e[..], keyState, nextState, extractOffset, phvDst, 402);
    PutBit(e, 401 / 32, 401 % 32, 1);
    assert Bounded(e[..], keyState, nextState, extractOffset, phvDst, 0);
  }

  lemma SetMeans(value: nat)
    ensures forall i: nat :: BitSet(value, i) <==> Bit(value, i) == 1
  {
  }

  method SetAllBits(words: array<uint32>, hi: nat, lo: nat)
    requires lo <= hi < 32 * words.Length && hi - lo == 63
    modifies words
    ensures forall k :: 0 <= k < 32 * words.Length ==>
      RowBit(words[..], k) == if lo <= k <= hi then 1 else RowBit(old(words[..]), k)
  {
    assert Pow2(64) == 0x1_0000_0000_0000_0000 by { Pow2Of64(); }
    forall i: nat | i < 64 ensures Bit(0xFFFF_FFFF_FFFF_FFFF, i) == 1 { OnesHaveAllBits(i, 64); }
    hide Bit, RowBit;
    SetBits(words, hi, lo, 0xFFFF_FFFF_FFFF_FFFF);
  }

  lemma Pow2Of64()
    ensures Pow2(64) == 0x1_0000_0000_0000_0000
  {
    Word32();
    assert Pow2(40) == 256 * Pow2(32);
    assert Pow2(48) == 256 * Pow2(40);
    assert Pow2(56) == 256 * Pow2(48);
    assert Pow2(64) == 256 * Pow2(56);
  }
}
