/** The action unit of a match-action stage (rtl/mau/mau_alu.sv) on a packet header vector of 512 bytes. */
module MauAlu {
  import opened Words
  import opened Bits

  const PHV_BYTES: nat := 512

  type Phv = p: seq<uint8> | |p| == 512 witness seq(512, _ => 0)

  datatype Meta = Meta(igPort: nat, egPort: nat, drop: bool, multicast: bool, mirror: bool, qosPrio: nat,
                       pktLen: nat, cellId: nat, timestamp: nat, flowHash: nat)

  /** What travels down the pipeline. */
  datatype Flit = Flit(phv: Phv, meta: Meta)

  /** One row of the action memory: an identifier, and 112 parameter bits as a top half-word over three words. */
  datatype Action = Action(id: uint16, top: uint16, p2: uint32, p1: uint32, p0: uint32) {
    function Op(): nat { id / 4096 }

    function DstOff(): nat { top / 64 }

    function SrcOff(): nat { p2 / 64 % 1024 }

    function Imm(): uint32 {
      var hi: int := p1;
      hi % 65536 * 65536 + p0 / 65536
    }

    function Width(): nat { p0 / 256 % 256 }
  }

  const NO_ACTION := Action(0, 0, 0, 0, 0)

  const OP_SET := 1
  const OP_COPY := 2
  const OP_ADD := 3
  const OP_SUB := 4
  const OP_AND := 5
  const OP_OR := 6
  const OP_XOR := 7
  const OP_DROP := 9
  const OP_SET_PORT := 10
  const OP_SET_PRIO := 11
  const OP_HASH_SET := 12
  const OP_COND_SET := 13

  function Byte(phv: Phv, off: nat): uint8 { if off < PHV_BYTES then phv[off] else 0 }

  function Field(phv: Phv, off: nat, width: nat): (v: nat)
    ensures v < Pow2(8 * width)
    decreases width
  {
    if width == 0 then 0
    else
      Pow8(width - 1);
      Byte(phv, off) + 256 * Field(phv, off + 1, width - 1)
  }

  /** The low `width` bytes of `v` written at `off`, least significant first; bytes past the end are dropped. */
  function SetField(phv: Phv, off: nat, width: nat, v: nat): Phv
    decreases width
  {
    if width == 0 then phv
    else SetField(if off < PHV_BYTES then phv[off := v % 256] else phv, off + 1, width - 1, v / 256)
  }

  lemma Pow8(n: nat)
    ensures Pow2(8 * (n + 1)) == 256 * Pow2(8 * n)
  {
    assert Pow2(8 * n + 8) == 2 * Pow2(8 * n + 7) == 4 * Pow2(8 * n + 6) == 8 * Pow2(8 * n + 5);
    assert Pow2(8 * n + 5) == 2 * Pow2(8 * n + 4) == 4 * Pow2(8 * n + 3) == 8 * Pow2(8 * n + 2);
    assert Pow2(8 * n + 2) == 2 * Pow2(8 * n + 1) == 4 * Pow2(8 * n);
  }

  predicate IsSum(op: nat) { op == OP_ADD || op == OP_SUB }

  /** The width in bytes an operation works on, four unless one of the widths its case lists is given. */
  function Bytes(op: nat, width: nat): nat {
    if op == OP_SET || op == OP_COPY then if width in {1, 2, 6} then width else 4
    else if IsSum(op) then if width in {1, 2} then width else 4
    else if op == OP_HASH_SET then if width == 2 then 2 else 4
    else 4
  }

  function Sum(phv: Phv, off: nat, width: nat, delta: int): nat {
    PowPositive(8 * width);
    (Field(phv, off, width) + delta) % Pow2(8 * width)
  }

  lemma Four()
    ensures Pow2(8 * 4) == TWO_32
  {
    Pow8(3);
    Pow8(2);
    Pow8(1);
    Pow8(0);
  }

  function Alu(a: Action, valid: bool, f: Flit, hash: uint32): Flit {
    if valid then Flit(NewPhv(a, f.phv, hash), NewMeta(a, f.meta)) else f
  }

  function NewMeta(a: Action, m: Meta): Meta {
    if a.Op() == OP_DROP then m.(drop := true)
    else if a.Op() == OP_SET_PORT then m.(egPort := a.Imm() % 32)
    else if a.Op() == OP_SET_PRIO then m.(qosPrio := a.Imm() % 8)
    else m
  }

  function NewPhv(a: Action, phv: Phv, hash: uint32): Phv {
    var w := Bytes(a.Op(), a.Width());
    var r := Result(a, phv, hash, w);
    if r.Some? then SetField(phv, a.DstOff(), w, r.value) else phv
  }

  /** The value written, if the operation writes the vector at all. */
  function Result(a: Action, phv: Phv, hash: uint32, w: nat): Option<nat> {
    Four();
    var op, imm: int := a.Op(), a.Imm();
    if op == OP_SET then Some(a.Imm())
    else if op == OP_COPY then Some(Field(phv, a.SrcOff(), w))
    else if op == OP_ADD then Some(Sum(phv, a.DstOff(), w, imm))
    else if op == OP_SUB then Some(Sum(phv, a.DstOff(), w, -imm))
    else if op == OP_AND then Some(And(Field(phv, a.DstOff(), 4), a.Imm(), 32))
    else if op == OP_OR then Some(Or(Field(phv, a.DstOff(), 4), a.Imm(), 32))
    else if op == OP_XOR then Some(Xor(Field(phv, a.DstOff(), 4), a.Imm(), 32))
    else if op == OP_HASH_SET then Some(hash)
    else if op == OP_COND_SET && Byte(phv, a.SrcOff()) != 0 then Some(a.Imm())
    else None
  }

  // ----- fields

  lemma {:induction false} SetFieldTouchesOnly(phv: Phv, off: nat, width: nat, v: nat, i: nat)
    requires i < PHV_BYTES && !(off <= i < off + width)
    ensures SetField(phv, off, width, v)[i] == phv[i]
    decreases width
  {
    if width > 0 {
      SetFieldTouchesOnly(if off < PHV_BYTES then phv[off := v % 256] else phv, off + 1, width - 1, v / 256, i);
    }
  }

  /** Reading back a field gives the low bytes of what was written. */
  lemma {:induction false} FieldAfterSet(phv: Phv, off: nat, width: nat, v: nat)
    requires off + width <= PHV_BYTES
    ensures Pow2(8 * width) > 0 && Field(SetField(phv, off, width, v), off, width) == v % Pow2(8 * width)
    decreases width
  {
    PowPositive(8 * width);
    if width > 0 {
      PowPositive(8 * (width - 1));
      Pow8(width - 1);
      var phv' := phv[off := v % 256];
      FieldAfterSet(phv', off + 1, width - 1, v / 256);
      SetFieldTouchesOnly(phv', off + 1, width - 1, v / 256, off);
      LowBytesOf(v, Pow2(8 * (width - 1)));
    }
  }

  lemma LowBytesOf(v: nat, p: nat)
    requires p > 0
    ensures v % (256 * p) == v % 256 + 256 * (v / 256 % p)
  {
    var q, r := v / 256 / p, v / 256 % p;
    assert v / 256 == q * p + r;
    assert v == v % 256 + 256 * r + q * (256 * p);
    QuotientIs(v, 256 * p, q, v % 256 + 256 * r);
  }

  lemma OwnByte(b: uint8, rest: nat)
    ensures (b + 256 * rest) % 256 == b && (b + 256 * rest) / 256 == rest
  {
  }

  /** Writing a field's own value changes nothing. */
  lemma {:induction false} SetOwnField(phv: Phv, off: nat, width: nat)
    ensures SetField(phv, off, width, Field(phv, off, width)) == phv
    decreases width
  {
    if width > 0 {
      hide Pow2;
      SetOwnField(phv, off + 1, width - 1);
      OwnByte(Byte(phv, off), Field(phv, off + 1, width - 1));
      assert off < PHV_BYTES ==> phv[off := phv[off]] == phv;
    }
  }

  /** The second of two writes to one field wins. */
  lemma {:induction false} SetTwice(phv: Phv, off: nat, width: nat, v: nat, w: nat)
    ensures SetField(SetField(phv, off, width, v), off, width, w) == SetField(phv, off, width, w)
    decreases width
  {
    if width > 0 {
      var a := if off < PHV_BYTES then phv[off := v % 256] else phv;
      SetCommutes(a, off, off + 1, width - 1, v / 256, w % 256);
      var b := if off < PHV_BYTES then phv[off := w % 256] else phv;
      assert off < PHV_BYTES ==> a[off := w % 256] == b;
      SetTwice(b, off + 1, width - 1, v / 256, w / 256);
    }
  }

  lemma {:induction false} SetCommutes(phv: Phv, i: nat, off: nat, width: nat, v: nat, b: uint8)
    requires i < off
    ensures i < PHV_BYTES ==> SetField(phv, off, width, v)[i := b] == SetField(phv[i := b], off, width, v)
    decreases width
  {
    if width > 0 && i < PHV_BYTES {
      if off < PHV_BYTES { assert phv[off := v % 256][i := b] == phv[i := b][off := v % 256]; }
      SetCommutes(if off < PHV_BYTES then phv[off := v % 256] else phv, i, off + 1, width - 1, v / 256, b);
    }
  }

  // ----- actions

  /** An action changes nothing outside the bytes of its destination field, and nothing at all when it misses. */
  lemma ActionTouchesOnlyDst(a: Action, valid: bool, f: Flit, hash: uint32, i: nat)
    requires i < PHV_BYTES && !(valid && a.DstOff() <= i < a.DstOff() + Bytes(a.Op(), a.Width()))
    ensures Alu(a, valid, f, hash).phv[i] == f.phv[i]
  {
    var w := Bytes(a.Op(), a.Width());
    var r := Result(a, f.phv, hash, w);
    hide Result;
    if valid && r.Some? { SetFieldTouchesOnly(f.phv, a.DstOff(), w, r.value, i); }
  }

  lemma ModCancels(x: nat, d: int, m: nat)
    requires 0 < m && x < m
    ensures ((x + d) % m - d) % m == x
  {
    var q := (x + d) / m;
    assert (x + d) % m - d == x - q * m;
    ModShift(x, -q, m);
  }

  lemma ModShift(x: nat, k: int, m: nat)
    requires 0 < m && x < m
    ensures (x + k * m) % m == x
  {
    var y := x + k * m;
    QuotientIs(y, m, k, x);
  }

  lemma QuotientIs(y: int, m: nat, q: int, r: nat)
    requires 0 < m && r < m && y == r + q * m
    ensures y % m == r && y / m == q
  {
    var q', r' := y / m, y % m;
    assert (q' - q) * m == r - r';
    if q' > q { Grows(q' - q, m); }
    if q' < q { Grows(q - q', m); }
  }

  lemma Grows(a: int, m: nat)
    requires a >= 1
    ensures a * m >= m
  {
    assert a * m == m + (a - 1) * m;
    assert (a - 1) * m >= 0;
  }

  lemma SumBack(phv: Phv, off: nat, w: nat, imm: int)
    requires off + w <= PHV_BYTES
    ensures var g := SetField(phv, off, w, Sum(phv, off, w, imm)); SetField(g, off, w, Sum(g, off, w, -imm)) == phv
  {
    hide SetField, Field, Pow2;
    var x, y := Field(phv, off, w), Sum(phv, off, w, imm);
    PowPositive(8 * w);
    FieldAfterSet(phv, off, w, y);
    ModShift(y, 0, Pow2(8 * w));
    ModCancels(x, imm, Pow2(8 * w));
    SetTwice(phv, off, w, y, x);
    SetOwnField(phv, off, w);
  }

  /** Subtracting what was added, at the same field, gives the header vector back, wrap-around included. */
  lemma SubUndoesAdd(add: Action, sub: Action, f: Flit, hash: uint32, hash': uint32)
    requires add.Op() == OP_ADD && sub.Op() == OP_SUB
    requires add.top == sub.top && add.p2 == sub.p2 && add.p1 == sub.p1 && add.p0 == sub.p0
    requires add.DstOff() + Bytes(OP_ADD, add.Width()) <= PHV_BYTES
    ensures Alu(sub, true, Alu(add, true, f, hash), hash') == f
  {
    hide SetField, Sum;
    var off, w := add.DstOff(), Bytes(OP_ADD, add.Width());
    var imm: int := add.Imm();
    var y := Sum(f.phv, off, w, imm);
    var g := SetField(f.phv, off, w, y);
    assert Alu(add, true, f, hash) == Flit(g, f.meta);
    SumBack(f.phv, off, w, imm);
    assert sub.DstOff() == off && Bytes(OP_SUB, sub.Width()) == w && sub.Imm() == imm;
    assert Result(sub, g, hash', w) == Some(Sum(g, off, w, -imm));
  }

  /** What the destination field holds afterwards: the low bytes of the immediate or of the hash, or the source field.
      */
  lemma ActionReadsBack(a: Action, f: Flit, hash: uint32)
    requires a.DstOff() + Bytes(a.Op(), a.Width()) <= PHV_BYTES
    ensures
      var w := Bytes(a.Op(), a.Width());
      var dst := Field(Alu(a, true, f, hash).phv, a.DstOff(), w);
      && Pow2(8 * w) > 0
      && (a.Op() == OP_SET ==> dst == a.Imm() % Pow2(8 * w))
      && (a.Op() == OP_HASH_SET ==> dst == hash % Pow2(8 * w))
      && (a.Op() == OP_COPY ==> dst == Field(f.phv, a.SrcOff(), w))
      && (a.Op() == OP_COND_SET ==>
        if Byte(f.phv, a.SrcOff()) != 0 then dst == a.Imm() % Pow2(8 * w) else Alu(a, true, f, hash) == f)
  {
    hide SetField, Field, Pow2;
    var w := Bytes(a.Op(), a.Width());
    var r := Result(a, f.phv, hash, w);
    PowPositive(8 * w);
    if r.Some? { FieldAfterSet(f.phv, a.DstOff(), w, r.value); }
    if a.Op() == OP_COPY { ModShift(Field(f.phv, a.SrcOff(), w), 0, Pow2(8 * w)); }
  }

  /** The logic operations act on every bit of the destination field by itself. */
  lemma LogicActsOnBits(a: Action, f: Flit, hash: uint32, i: nat)
    requires a.Op() in {OP_AND, OP_OR, OP_XOR} && a.DstOff() + 4 <= PHV_BYTES && i < 32
    ensures
      var x, m := Bit(Field(f.phv, a.DstOff(), 4), i), Bit(a.Imm(), i);
      Bit(Field(Alu(a, true, f, hash).phv, a.DstOff(), 4), i) == 1 <==>
        if a.Op() == OP_AND then x == 1 && m == 1 else if a.Op() == OP_OR then x == 1 || m == 1 else x != m
  {
    hide SetField, Field, And, Or, Xor, Bit, Pow2, Alu;
    var x, m := Field(f.phv, a.DstOff(), 4), a.Imm();
    Four();
    LogicWrites(a, f, hash);
    BitOfAnd(x, m, 32, i);
    BitOfOr(x, m, 32, i);
    BitOfXor(x, m, 32, i);
  }

  lemma LogicWrites(a: Action, f: Flit, hash: uint32)
    requires a.Op() in {OP_AND, OP_OR, OP_XOR} && a.DstOff() + 4 <= PHV_BYTES
    ensures Pow2(32) == TWO_32
    ensures var x := Field(f.phv, a.DstOff(), 4);
      Field(Alu(a, true, f, hash).phv, a.DstOff(), 4) ==
        if a.Op() == OP_AND then And(x, a.Imm(), 32)
        else if a.Op() == OP_OR then Or(x, a.Imm(), 32)
        else Xor(x, a.Imm(), 32)
  {
    hide SetField, Field, And, Or, Xor, Pow2;
    Four();
    var r := Result(a, f.phv, hash, 4);
    FieldAfterSet(f.phv, a.DstOff(), 4, r.value);
  }

  // ----- what the operation codes and the parameter bits mean, in numbers

  const TWO_64: nat := 0x1_0000_0000_0000_0000
  const TWO_96: nat := 0x1_0000_0000_0000_0000_0000_0000

  /** The 112 parameter bits as one number. */
  function Params(a: Action): nat {
    var hi: int, w2: int, w1: int := a.top, a.p2, a.p1;
    hi * TWO_96 + w2 * TWO_64 + w1 * TWO_32 + a.p0
  }

  lemma TopBits(hi: nat, low: nat)
    requires low < TWO_96
    ensures (hi * TWO_96 + low) / 0x40_0000_0000_0000_0000_0000_0000 == hi / 64
  {
    var q, r := hi / 64, hi % 64;
    QuotientIs(hi * TWO_96 + low, 0x40_0000_0000_0000_0000_0000_0000, q, r * TWO_96 + low);
  }

  lemma SourceBits(hi: nat, w2: nat, low: nat)
    requires w2 < TWO_32 && low < TWO_64
    ensures (hi * TWO_96 + w2 * TWO_64 + low) / 0x40_0000_0000_0000_0000 % 0x400 == w2 / 64 % 0x400
  {
    var q, r := w2 / 64, w2 % 64;
    var whole := hi * 0x400_0000 + q;
    QuotientIs(hi * TWO_96 + w2 * TWO_64 + low, 0x40_0000_0000_0000_0000, whole, r * TWO_64 + low);
    QuotientIs(whole, 0x400, hi * 0x1_0000 + q / 0x400, q % 0x400);
  }

  lemma ImmediateBits(high: nat, w1: nat, w0: nat)
    requires w1 < TWO_32 && w0 < TWO_32
    ensures (high * TWO_64 + w1 * TWO_32 + w0) / 0x1_0000 % TWO_32 == w1 % 0x1_0000 * 0x1_0000 + w0 / 0x1_0000
  {
    var q, r := w1 / 0x1_0000, w1 % 0x1_0000;
    var whole := high * 0x1_0000_0000_0000 + w1 * 0x1_0000 + w0 / 0x1_0000;
    QuotientIs(high * TWO_64 + w1 * TWO_32 + w0, 0x1_0000, whole, w0 % 0x1_0000);
    QuotientIs(whole, TWO_32, high * 0x1_0000 + q, r * 0x1_0000 + w0 / 0x1_0000);
  }

  lemma WidthBits(high: nat, w0: nat)
    requires w0 < TWO_32
    ensures (high * TWO_32 + w0) / 0x100 % 0x100 == w0 / 0x100 % 0x100
  {
    var whole := high * 0x100_0000 + w0 / 0x100;
    QuotientIs(high * TWO_32 + w0, 0x100, whole, w0 % 0x100);
    QuotientIs(whole, 0x100, high * 0x1_0000 + w0 / 0x1_0000, w0 / 0x100 % 0x100);
  }

  /** The fields are bits 15 to 12 of the id, and bits 111 to 102, 79 to 70, 47 to 16 and 15 to 8 of the parameters. */
  lemma FieldsAreSlices(a: Action)
    ensures a.Op() == a.id / 0x1000
    ensures a.DstOff() == Params(a) / 0x40_0000_0000_0000_0000_0000_0000
    ensures a.SrcOff() == Params(a) / 0x40_0000_0000_0000_0000 % 0x400
    ensures a.Imm() == Params(a) / 0x1_0000 % TWO_32
    ensures a.Width() == Params(a) / 0x100 % 0x100
  {
    var hi: int, w2: int, w1: int, w0: int := a.top, a.p2, a.p1, a.p0;
    TopBits(hi, w2 * TWO_64 + w1 * TWO_32 + w0);
    SourceBits(hi, w2, w1 * TWO_32 + w0);
    ImmediateBits(hi * TWO_32 + w2, w1, w0);
    WidthBits(hi * TWO_64 + w2 * TWO_32 + w1, w0);
    assert Params(a) == (hi * TWO_32 + w2) * TWO_64 + w1 * TWO_32 + w0;
    assert Params(a) == (hi * TWO_64 + w2 * TWO_32 + w1) * TWO_32 + w0;
  }

  lemma ByteWidths()
    ensures Pow2(8 * 1) == 0x100 && Pow2(8 * 2) == 0x1_0000
  {
    Pow8(0);
    Pow8(1);
  }

  /** Operation 3 leaves the old value of the destination field plus the immediate, operation 4 the difference, in the
      one, two or four bytes of the field. */
  lemma AddsAndSubtracts(a: Action, f: Flit, hash: uint32, w: nat)
    requires (a.Op() == 3 || a.Op() == 4) && w == if a.Width() == 1 || a.Width() == 2 then a.Width() else 4
    requires a.DstOff() + w <= PHV_BYTES
    ensures
      var imm: int := a.Imm();
      Field(Alu(a, true, f, hash).phv, a.DstOff(), w) ==
        (Field(f.phv, a.DstOff(), w) + if a.Op() == 3 then imm else -imm)
          % (if w == 1 then 0x100 else if w == 2 then 0x1_0000 else TWO_32)
  {
    hide SetField, Field, Pow2;
    ByteWidths();
    Four();
    var imm: int := a.Imm();
    var y := Sum(f.phv, a.DstOff(), w, if a.Op() == 3 then imm else -imm);
    FieldAfterSet(f.phv, a.DstOff(), w, y);
    ModShift(y, 0, Pow2(8 * w));
  }

  /** Operations 1 and 2 work on one, two, six or otherwise four bytes; operation 12 on two or otherwise four, and
      operation 13 on four. */
  lemma SetsAndCopies(a: Action, f: Flit, hash: uint32, w: nat)
    requires a.Op() in {1, 2, 12, 13} && a.DstOff() + w <= PHV_BYTES
    requires w == if (a.Op() <= 2 && a.Width() in {1, 2, 6}) || (a.Op() == 12 && a.Width() == 2) then a.Width() else 4
    ensures
      var dst := Field(Alu(a, true, f, hash).phv, a.DstOff(), w);
      && Pow2(8 * w) > 0
      && (a.Op() == 1 ==> dst == a.Imm() % Pow2(8 * w))
      && (a.Op() == 2 ==> dst == Field(f.phv, a.SrcOff(), w))
      && (a.Op() == 12 ==> dst == hash % Pow2(8 * w))
      && (a.Op() == 13 && Byte(f.phv, a.SrcOff()) != 0 ==> dst == a.Imm() % Pow2(8 * w))
      && (a.Op() == 13 && Byte(f.phv, a.SrcOff()) == 0 ==> Alu(a, true, f, hash) == f)
  {
    hide Alu, Field, Pow2;
    ActionReadsBack(a, f, hash);
  }

  /** Operations 9, 10 and 11 drop, choose the output port by five bits and the priority by three, and leave the header
      vector alone; the codes without a case do nothing; no other operation touches the metadata. */
  lemma MetaOperations(a: Action, f: Flit, hash: uint32)
    ensures var g := Alu(a, true, f, hash);
      && (a.Op() == 9 ==> g == f.(meta := f.meta.(drop := true)))
      && (a.Op() == 10 ==> g == f.(meta := f.meta.(egPort := a.Imm() % 32)))
      && (a.Op() == 11 ==> g == f.(meta := f.meta.(qosPrio := a.Imm() % 8)))
      && (a.Op() in {0, 8, 14, 15} ==> g == f)
      && (a.Op() !in {9, 10, 11} ==> g.meta == f.meta)
  {
    hide SetField;
  }
}
