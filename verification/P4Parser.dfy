/** The header parser (rtl/parser/p4_parser.sv, rtl/parser/parser_tcam.sv): a ternary memory of state transitions, and a
    machine that copies one byte of the first cell into the header vector for each transition it takes. */
module P4Parser {
  import opened Words
  import opened ParserEntry
  import MauAlu

  const DEPTH: nat := 256
  const CELL_BYTES: nat := 64
  const PHV_BYTES: nat := 512
  const ACCEPT := 63

  type FsmState = s: int | 0 <= s < 64
  type Memory = m: seq<Entry> | |m| == 256 witness seq(256, _ => seq(640, _ => false))
  type Window = w: seq<uint8> | |w| == 8 witness seq(8, _ => 0)
  type Cell = c: seq<uint8> | |c| == 64 witness seq(64, _ => 0)
  type Phv = p: seq<uint8> | |p| == 512 witness seq(512, _ => 0)

  datatype Phase = PsIdle | PsLatch | PsTcamWait | PsProcess | PsPayload | PsEmit | PsDrop

  /** The registered outputs of the ternary memory. */
  datatype Found = Found(hit: bool, next: nat, offset: nat, dst: nat, advance: nat)

  /** `firstCell` is the buffer cell of the frame's first cell. */
  datatype Machine = Machine(
    ps: Phase, cell: Cell, eof: bool, eopLen: nat, port: nat, phv: Phv, meta: MauAlu.Meta,
    fsm: FsmState, hdrPtr: nat, found: Found, frameActive: bool, firstCell: nat)

  /** What a clock edge samples: a cell if one is offered, whether the header vector is taken, and the buffer cell that
      the packet buffer offers. */
  datatype Input = Input(
    valid: bool, sof: bool, eof: bool, eopLen: nat, port: nat, data: Cell, phvReady: bool, allocId: nat)

  // ----- the ternary memory

  /** The number held in `n` bits of an entry, the lowest at `lo`. */
  function Num(e: Entry, lo: nat, n: nat): nat
    requires lo + n <= ENTRY_BITS
    decreases n
  {
    if n == 0 then 0 else (if e[lo] then 1 else 0) + 2 * Num(e, lo + 1, n - 1)
  }

  /** A state or window bit agrees with the entry, or the entry does not care. */
  predicate StateMatches(e: Entry, s: FsmState) {
    forall i :: 0 <= i < 6 ==> e[634 + i] == BitSet(s, i) || e[564 + i]
  }

  predicate WindowMatches(e: Entry, w: Window) {
    forall i :: 0 <= i < 64 ==> e[570 + i] == BitSet(w[i / 8], i % 8) || e[442 + i]
  }

  predicate Matches(e: Entry, s: FsmState, w: Window) {
    e[401] && StateMatches(e, s) && WindowMatches(e, w)
  }

  function FirstFrom(m: Memory, s: FsmState, w: Window, i: nat): (k: Option<nat>)
    requires i <= DEPTH
    ensures k.Some? ==> k.value < DEPTH && Matches(m[k.value], s, w)
    ensures k.None? ==> forall j :: i <= j < DEPTH ==> !Matches(m[j], s, w)
    decreases DEPTH - i
  {
    if i == DEPTH then None else if Matches(m[i], s, w) then Some(i) else FirstFrom(m, s, w, i + 1)
  }

  function Looked(m: Memory, s: FsmState, w: Window): Found {
    match FirstFrom(m, s, w, 0)
    case None => Found(false, 0, 0, 0, 0)
    case Some(k) => FoundIn(m[k])
  }

  function FoundIn(e: Entry): Found { Found(true, Num(e, 436, 6), Num(e, 428, 8), Num(e, 410, 10), Num(e, 402, 8)) }

  function ByteAt(c: Cell, i: nat): uint8 { if i < CELL_BYTES then c[i] else 0 }

  function WindowByte(c: Cell, ptr: nat, i: nat): uint8 { ByteAt(c, ptr % 64 + i) }

  /** Eight bytes of the cell from the header pointer on. */
  function WindowAt(c: Cell, ptr: nat): Window {
    seq(8, i requires 0 <= i < 8 => WindowByte(c, ptr, i))
  }

  // ----- the machine

  function Zeros(): Phv { seq(512, _ => 0) }

  function NoMeta(): MauAlu.Meta { MauAlu.Meta(0, 0, false, false, false, 0, 0, 0, 0, 0) }

  /** The metadata at the start of a frame: all zero but for the input port and the first buffer cell. */
  function StartMeta(port: nat, firstCell: nat): MauAlu.Meta { NoMeta().(igPort := port, cellId := firstCell) }

  /** One clock edge, all registers loading from the values before it. */
  function Edge(m: Memory, s: Machine, x: Input): Machine {
    var t := if s.ps == PsLatch then s.(found := Looked(m, s.fsm, WindowAt(s.cell, s.hdrPtr))) else s;
    match s.ps
    case PsIdle =>
      if x.valid && x.sof then
        Machine(PsLatch, x.data, x.eof, x.eopLen, x.port, Zeros(), StartMeta(x.port, x.allocId), 1, 0, s.found,
                true, x.allocId)
      else s
    case PsLatch => t.(ps := PsTcamWait)
    case PsTcamWait => s.(ps := PsProcess)
    case PsProcess =>
      if s.found.hit then Extracted(s)
      else s.(ps := if s.eof then PsIdle else PsDrop, meta := s.meta.(drop := true), frameActive := !s.eof)
    case PsPayload =>
      if x.valid then
        s.(meta := s.meta.(pktLen := (s.meta.pktLen + if x.eof then x.eopLen else 64) % 16384),
           ps := if x.eof then PsEmit else PsPayload)
      else s
    case PsEmit => if x.phvReady then s.(ps := PsIdle, frameActive := false) else s
    case PsDrop => if x.valid && Ready(s) && x.eof then s.(ps := PsIdle, frameActive := false) else s
  }

  /** Cells are taken only while idle or in the payload. */
  predicate Ready(s: Machine) { s.ps == PsIdle || s.ps == PsPayload }

  /** A buffer cell is asked for with the first cell of a frame, and with every further one that is not the last. */
  predicate AllocReq(s: Machine, x: Input) {
    (s.ps == PsIdle && x.valid && x.sof) || (s.ps == PsPayload && x.valid && Ready(s) && !x.eof)
  }

  /** Every cell of the frame is written to the packet buffer, at the cell it offers. */
  predicate Writes(s: Machine, x: Input) {
    (s.ps == PsIdle && x.valid && x.sof) || (s.ps == PsPayload && x.valid && Ready(s))
  }

  function Extracted(s: Machine): Machine {
    var f := s.found;
    var t := s.(
      phv := if f.dst < PHV_BYTES then s.phv[f.dst := ByteAt(s.cell, f.offset)] else s.phv,
      hdrPtr := (s.hdrPtr + f.advance) % 16384, fsm := f.next % 64);
    if f.next == ACCEPT
    then t.(meta := s.meta.(pktLen := if s.eof then s.eopLen else 64), ps := if s.eof then PsEmit else PsPayload)
    else t.(ps := PsLatch)
  }

  class Parser {
    const mem: array<Entry>
    const phv: array<uint8>
    var ps: Phase
    var cell: Cell
    var eof: bool
    var eopLen: nat
    var port: nat
    var meta: MauAlu.Meta
    var fsm: FsmState
    var hdrPtr: nat
    var found: Found
    var frameActive: bool
    var firstCell: nat

    ghost predicate Valid() { mem.Length == DEPTH && phv.Length == PHV_BYTES }

    ghost function Program(): Memory
      reads mem
      requires Valid()
    {
      mem[..]
    }

    ghost function Value(): Machine
      reads this, phv
      requires Valid()
    {
      Machine(ps, cell, eof, eopLen, port, phv[..], meta, fsm, hdrPtr, found, frameActive, firstCell)
    }

    constructor ()
      ensures Valid() && fresh(mem) && fresh(phv) && ps == PsIdle && !frameActive && meta == NoMeta()
    {
      mem := new Entry[DEPTH](_ => seq(640, _ => false));
      phv := new uint8[PHV_BYTES](_ => 0);
      ps, cell, eof, eopLen, port, meta := PsIdle, seq(64, _ => 0), false, 0, 0, NoMeta();
      fsm, hdrPtr, found, frameActive, firstCell := 0, 0, Found(false, 0, 0, 0, 0), false, 0;
    }

    method WriteEntry(addr: uint8, e: Entry)
      requires Valid()
      modifies mem
      ensures Program() == old(Program())[addr := e]
    {
      mem[addr] := e;
    }

    /** Programs a chain into a memory that holds no valid entry, one built entry after the other. */
    method WriteChain(items: seq<Item>)
      requires Valid() && Usable(items) && forall a :: 0 <= a < DEPTH ==> !mem[a][401]
      modifies mem
      ensures Programmed(Program(), items)
    {
      hide SingleByteEntry;
      var n := |items|;
      for j := 1 to n + 1
        invariant forall a :: 0 <= a < j - 1 ==> mem[a] == ChainEntry(items, a + 1)
        invariant forall a :: j - 1 <= a < DEPTH ==> !mem[a][401]
      {
        var next: uint8 := if j == n then ACCEPT else j + 1;
        var e := MakeParserEntry(j, next, items[j - 1].offset, items[j - 1].dst);
        WriteEntry(j - 1, EntryOf(e[..]));
      }
      FilledIsProgrammed(Program(), items);
    }

    /** The priority encoder scans down, so the lowest match is assigned last. */
    method PriorityEncode(w: Window) returns (anyHit: bool, hitIdx: nat)
      requires Valid()
      ensures (if anyHit then Some(hitIdx) else None) == FirstFrom(mem[..], fsm, w, 0)
    {
      anyHit, hitIdx := false, 0;
      hide Matches;
      for i := DEPTH downto 0
        invariant (if anyHit then Some(hitIdx) else None) == FirstFrom(mem[..], fsm, w, i)
      {
        if Matches(mem[i], fsm, w) { anyHit, hitIdx := true, i; }
      }
    }

    method Lookup(w: Window)
      requires Valid()
      modifies this`found
      ensures found == Looked(mem[..], fsm, w)
    {
      hide FirstFrom, Num;
      var anyHit, hitIdx := PriorityEncode(w);
      if anyHit {
        var e := mem[hitIdx];
        found := Found(true, Num(e, 436, 6), Num(e, 428, 8), Num(e, 410, 10), Num(e, 402, 8));
      } else {
        found := Found(false, 0, 0, 0, 0);
      }
    }

    method ClockEdge(x: Input)
      requires Valid()
      modifies this, phv
      ensures Program() == old(Program()) && Value() == Edge(Program(), old(Value()), x)
    {
      hide Looked, WindowAt, Extracted;
      match ps {
        case PsIdle =>
          if x.valid && x.sof { Start(x); }
        case PsLatch =>
          Lookup(WindowAt(cell, hdrPtr));
          ps := PsTcamWait;
        case PsTcamWait =>
          ps := PsProcess;
        case PsProcess =>
          if found.hit {
            Extract();
          } else {
            ps, meta, frameActive := if eof then PsIdle else PsDrop, meta.(drop := true), !eof;
          }
        case _ =>
          AfterHeader(x);
      }
    }

    /** The phases after the header: the rest of the frame, the handover, and the drop. */
    method AfterHeader(x: Input)
      requires Valid() && ps in {PsPayload, PsEmit, PsDrop}
      modifies this
      ensures Value() == Edge(Program(), old(Value()), x)
    {
      hide Looked, WindowAt, Extracted;
      if ps == PsPayload {
        if x.valid {
          meta := meta.(pktLen := (meta.pktLen + if x.eof then x.eopLen else 64) % 16384);
          if x.eof { ps := PsEmit; }
        }
      } else if ps == PsEmit {
        if x.phvReady { ps, frameActive := PsIdle, false; }
      } else {
        var ready := ps == PsIdle || ps == PsPayload;
        var leave := x.valid && ready && x.eof;
        ps, frameActive := if leave then PsIdle else ps, frameActive && !leave;
      }
    }

    method Start(x: Input)
      requires Valid()
      modifies this, phv
      ensures Value() ==
        Machine(PsLatch, x.data, x.eof, x.eopLen, x.port, Zeros(), StartMeta(x.port, x.allocId), 1, 0, old(found),
                true, x.allocId)
    {
      for i := 0 to PHV_BYTES
        modifies phv
        invariant forall j :: 0 <= j < i ==> phv[j] == 0
      {
        phv[i] := 0;
      }
      ps, cell, eof, eopLen, port := PsLatch, x.data, x.eof, x.eopLen, x.port;
      meta := NoMeta();
      meta := meta.(igPort := x.port, drop := false, multicast := false, mirror := false, qosPrio := 0,
                    cellId := x.allocId);
      fsm, hdrPtr, frameActive, firstCell := 1, 0, true, x.allocId;
    }

    method Extract()
      requires Valid()
      modifies this, phv
      ensures Value() == Extracted(old(Value()))
    {
      if found.dst < PHV_BYTES { phv[found.dst] := ByteAt(cell, found.offset); }
      hdrPtr, fsm := (hdrPtr + found.advance) % 16384, found.next % 64;
      if found.next == ACCEPT {
        meta := meta.(pktLen := if eof then eopLen else 64);
        ps := if eof then PsEmit else PsPayload;
      } else {
        ps := PsLatch;
      }
    }
  }

  // ----- the window

  /** Bits `lo` to `lo + n - 1` are zero. */
  predicate Clear(e: Entry, lo: nat, n: nat)
    requires lo + n <= ENTRY_BITS
  {
    forall k :: lo <= k < lo + n ==> !e[k]
  }

  /** An entry that cares for the whole window matches the state and window bytes it names and no others. */
  lemma CaringEntryMatchesIff(e: Entry, s: FsmState, w: Window)
    requires Clear(e, 564, 6) && Clear(e, 442, 64)
    ensures Matches(e, s, w) <==>
      e[401] && Num(e, 634, 6) == s && forall j :: 0 <= j < 8 ==> Num(e, 570 + 8 * j, 8) == w[j]
  {
    Powers();
    hide BitSet, Pow2, Num;
    StateNamed(e, s);
    forall j | 0 <= j < 8
      ensures Num(e, 570 + 8 * j, 8) == w[j] <==> forall i :: 0 <= i < 8 ==> e[570 + 8 * j + i] == BitSet(w[j], i)
    {
      NumIffBits(e, 570 + 8 * j, 8, w[j]);
    }
    WindowByBytes(e, w);
  }

  lemma StateNamed(e: Entry, s: FsmState)
    requires Clear(e, 564, 6)
    ensures StateMatches(e, s) <==> Num(e, 634, 6) == s
  {
    Powers();
    hide BitSet, Pow2, Num;
    NumIffBits(e, 634, 6, s);
  }

  lemma WindowByBytes(e: Entry, w: Window)
    requires Clear(e, 442, 64)
    ensures WindowMatches(e, w) <==>
      forall j :: 0 <= j < 8 ==> forall i :: 0 <= i < 8 ==> e[570 + 8 * j + i] == BitSet(w[j], i)
  {
    hide BitSet;
    if WindowMatches(e, w) {
      forall j, i | 0 <= j < 8 && 0 <= i < 8 ensures e[570 + 8 * j + i] == BitSet(w[j], i) {
        var n := 8 * j + i;
        assert n / 8 == j && n % 8 == i && !e[442 + n];
      }
    }
    if forall j :: 0 <= j < 8 ==> forall i :: 0 <= i < 8 ==> e[570 + 8 * j + i] == BitSet(w[j], i) {
      forall n | 0 <= n < 64 ensures e[570 + n] == BitSet(w[n / 8], n % 8) {
        assert e[570 + 8 * (n / 8) + n % 8] == BitSet(w[n / 8], n % 8);
      }
    }
  }

  /** The window is eight bytes of the cell from the header pointer's low six bits on, zero past its end. */
  lemma WindowIs(c: Cell, ptr: nat, j: nat)
    requires j < 8
    ensures WindowAt(c, ptr)[j] == if ptr % 64 + j < 64 then c[ptr % 64 + j] else 0
  {
  }

  /** After an entry that does not accept the next lookup is made in the state it names, with the window moved on by the
      number of bytes it names, whatever arrives meanwhile. */
  lemma NextLookup(m: Memory, s: Machine, x: Input, y: Input)
    requires s.ps == PsProcess && s.found.hit && s.found.next != 63
    ensures Edge(m, Edge(m, s, x), y).found ==
      Looked(m, s.found.next % 64, WindowAt(s.cell, (s.hdrPtr + s.found.advance) % 16384))
  {
    hide Looked, WindowAt;
  }

  lemma {:induction false} NumIffBits(e: Entry, lo: nat, n: nat, v: nat)
    requires lo + n <= ENTRY_BITS && v < Pow2(n)
    ensures Num(e, lo, n) == v <==> forall i :: 0 <= i < n ==> e[lo + i] == BitSet(v, i)
    decreases n
  {
    if forall i :: 0 <= i < n ==> e[lo + i] == BitSet(v, i) { NumOfBits(e, lo, n, v); }
    if Num(e, lo, n) == v && n > 0 {
      NumFits(e, lo + 1, n - 1);
      NumIffBits(e, lo + 1, n - 1, v / 2);
      assert e[lo + 0] == BitSet(v, 0);
      forall i | 0 < i < n ensures e[lo + i] == BitSet(v, i) {
        assert e[lo + 1 + (i - 1)] == BitSet(v / 2, i - 1);
      }
    }
  }

  lemma {:induction false} NumFits(e: Entry, lo: nat, n: nat)
    requires lo + n <= ENTRY_BITS
    ensures Num(e, lo, n) < Pow2(n)
    decreases n
  {
    if n > 0 { NumFits(e, lo + 1, n - 1); }
  }

  // ----- a chain of single-byte entries

  /** Copy the cell's byte at `offset` to the header vector at `dst`. */
  datatype Item = Item(offset: uint8, dst: uint16)

  /** At most 62 items, within the cell and the header vector. */
  predicate Usable(items: seq<Item>) {
    && 1 <= |items| <= 62
    && forall i :: 0 <= i < |items| ==> items[i].offset < 64 && items[i].dst < 512
  }

  /** The entry of state `j`, which goes on to state `j + 1`, or accepts after the last item. */
  function ChainEntry(items: seq<Item>, j: nat): Entry
    requires 1 <= j <= |items| <= 62
  {
    SingleByteEntry(j, if j == |items| then ACCEPT else j + 1, items[j - 1].offset, items[j - 1].dst)
  }

  predicate Links(m: Memory, items: seq<Item>, a: int, j: int) {
    0 <= a < DEPTH && 1 <= j <= |items| <= 62 && m[a] == ChainEntry(items, j)
  }

  /** The memory holds the chain, at whatever addresses, and nothing else that is valid. */
  ghost predicate Programmed(m: Memory, items: seq<Item>) {
    && (forall a :: 0 <= a < DEPTH && m[a][401] ==> exists j :: Links(m, items, a, j))
    && (forall j :: 1 <= j <= |items| ==> IsPresent(m, items, j))
  }

  ghost predicate IsPresent(m: Memory, items: seq<Item>, j: int) { exists a :: Links(m, items, a, j) }

  lemma FilledIsProgrammed(m: Memory, items: seq<Item>)
    requires |items| <= 62
    requires forall a :: 0 <= a < |items| ==> m[a] == ChainEntry(items, a + 1)
    requires forall a :: |items| <= a < DEPTH ==> !m[a][401]
    ensures Programmed(m, items)
  {
    forall a | 0 <= a < DEPTH && m[a][401] ensures exists j :: Links(m, items, a, j) {
      assert Links(m, items, a, a + 1);
    }
    forall j | 1 <= j <= |items| ensures IsPresent(m, items, j) {
      assert Links(m, items, j - 1, j);
    }
  }

  /** The header vector after the first `k` items: each writes its byte, and the later one wins. */
  function Copied(c: Cell, items: seq<Item>, k: nat): Phv
    requires Usable(items) && k <= |items|
  {
    if k == 0 then Zeros() else Copied(c, items, k - 1)[items[k - 1].dst := c[items[k - 1].offset]]
  }

  /** A byte no item names stays zero. */
  lemma {:induction false} UnnamedStaysZero(c: Cell, items: seq<Item>, k: nat, b: nat)
    requires Usable(items) && k <= |items| && b < PHV_BYTES && forall i :: 0 <= i < k ==> items[i].dst != b
    ensures Copied(c, items, k)[b] == 0
  {
    if k > 0 { UnnamedStaysZero(c, items, k - 1, b); }
  }

  /** A byte that items name is the cell byte of the last one that does. */
  lemma {:induction false} LastItemWins(c: Cell, items: seq<Item>, k: nat, i: nat)
    requires Usable(items) && i < k <= |items| && forall j :: i < j < k ==> items[j].dst != items[i].dst
    ensures Copied(c, items, k)[items[i].dst] == c[items[i].offset]
  {
    if k - 1 > i { LastItemWins(c, items, k - 1, i); }
  }

  // ----- the fields of a chain entry

  lemma {:induction false} NumOfBits(e: Entry, lo: nat, n: nat, v: nat)
    requires lo + n <= ENTRY_BITS && v < Pow2(n) && forall i :: 0 <= i < n ==> e[lo + i] == BitSet(v, i)
    ensures Num(e, lo, n) == v
    decreases n
  {
    if n > 0 {
      assert e[lo + 0] == BitSet(v, 0);
      forall i | 0 <= i < n - 1 ensures e[lo + 1 + i] == BitSet(v / 2, i) {
        assert e[lo + (i + 1)] == BitSet(v, i + 1);
      }
      NumOfBits(e, lo + 1, n - 1, v / 2);
    }
  }

  lemma {:induction false} SameBitsSame(a: nat, b: nat, n: nat)
    requires a < Pow2(n) && b < Pow2(n) && forall i :: 0 <= i < n ==> BitSet(a, i) == BitSet(b, i)
    ensures a == b
  {
    if n > 0 {
      assert BitSet(a, 0) == BitSet(b, 0);
      forall i | 0 <= i < n - 1 ensures BitSet(a / 2, i) == BitSet(b / 2, i) {
        assert BitSet(a, i + 1) == BitSet(b, i + 1);
      }
      SameBitsSame(a / 2, b / 2, n - 1);
    }
  }

  lemma Powers()
    ensures Pow2(6) == 64 && Pow2(8) == 256 && Pow2(10) == 1024
  {
  }

  /** What the hardware reads back from an entry is what the builder was given. */
  lemma FieldsReadBack(state: uint8, next: uint8, offset: uint8, dst: uint16)
    requires next < 64 && dst < 1024
    ensures FoundIn(SingleByteEntry(state, next, offset, dst)) == Found(true, next, offset, dst, 0)
  {
    var e := SingleByteEntry(state, next, offset, dst);
    Powers();
    hide Pow2, Num, BitSet;
    NumOfBits(e, 436, 6, next);
    NumOfBits(e, 428, 8, offset);
    NumOfBits(e, 410, 10, dst);
    ZeroBits();
    NumOfBits(e, 402, 8, 0);
  }

  lemma ZeroBits()
    ensures forall i: nat :: !BitSet(0, i)
  {
    forall i: nat ensures !BitSet(0, i) { ZeroHasNoBits(i); }
  }

  /** An entry matches its own state alone, whatever the window holds. */
  lemma MatchesOwnState(state: uint8, next: uint8, offset: uint8, dst: uint16, s: FsmState, w: Window)
    requires state < 64
    ensures Matches(SingleByteEntry(state, next, offset, dst), s, w) <==> s == state
  {
    var e := SingleByteEntry(state, next, offset, dst);
    Powers();
    hide BitSet, Pow2;
    if StateMatches(e, s) {
      forall i | 0 <= i < 6 ensures BitSet(s, i) == BitSet(state, i) {
        assert !e[564 + i] && e[634 + i] == BitSet(state, i);
      }
      SameBitsSame(s, state, 6);
    }
  }

  /** In state `j` a programmed memory finds the `j`th entry of the chain. */
  lemma ChainIsFound(m: Memory, items: seq<Item>, j: nat, w: Window)
    requires Usable(items) && Programmed(m, items) && 1 <= j <= |items|
    ensures Looked(m, j, w) ==
      Found(true, if j == |items| then ACCEPT else j + 1, items[j - 1].offset, items[j - 1].dst, 0)
  {
    forall i: nat | 1 <= i <= |items| ensures Matches(ChainEntry(items, i), j, w) <==> i == j {
      MatchesOwnState(i, if i == |items| then ACCEPT else i + 1, items[i - 1].offset, items[i - 1].dst, j, w);
    }
    assert IsPresent(m, items, j);
    var a :| Links(m, items, a, j);
    var k := FirstFrom(m, j, w, 0);
    assert k.Some?;
    var i :| Links(m, items, k.value, i);
    FieldsReadBack(j, if j == |items| then ACCEPT else j + 1, items[j - 1].offset, items[j - 1].dst);
    hide SingleByteEntry, StateMatches, WindowMatches, FirstFrom, FoundIn;
    assert m[k.value] == ChainEntry(items, j);
  }

  // ----- runs

  function After(m: Memory, s: Machine, xs: seq<Input>): Machine
    decreases |xs|
  {
    if xs == [] then s else After(m, Edge(m, s, xs[0]), xs[1..])
  }

  /** The register that says a frame is being handled does so in every run. */
  lemma {:induction false} ActiveIffBusy(m: Memory, s: Machine, xs: seq<Input>)
    requires s.frameActive <==> s.ps != PsIdle
    ensures After(m, s, xs).frameActive <==> After(m, s, xs).ps != PsIdle
    decreases |xs|
  {
    hide Looked, WindowAt;
    if xs != [] { ActiveIffBusy(m, Edge(m, s, xs[0]), xs[1..]); }
  }

  /** What was latched with the first cell of the frame is as it was. */
  predicate SameFrame(s: Machine, t: Machine) {
    t.cell == s.cell && t.eof == s.eof && t.eopLen == s.eopLen && t.port == s.port && t.firstCell == s.firstCell
  }

  /** About to take item `j`, the ones before it copied. */
  predicate AtItem(s: Machine, items: seq<Item>, j: nat)
    requires Usable(items) && 1 <= j <= |items|
  {
    && s.ps == PsLatch && s.fsm == j && s.hdrPtr == 0 && s.meta == StartMeta(s.port, s.firstCell)
    && s.phv == Copied(s.cell, items, j - 1)
  }

  /** The end of the header: every item copied, and the frame's first cell accepted. */
  predicate Accepted(s: Machine, items: seq<Item>)
    requires Usable(items)
  {
    && s.ps == (if s.eof then PsEmit else PsPayload) && s.phv == Copied(s.cell, items, |items|)
    && s.meta == StartMeta(s.port, s.firstCell).(pktLen := if s.eof then s.eopLen else 64)
  }

  function Three(m: Memory, s: Machine, x: Input, y: Input, z: Input): Machine { Edge(m, Edge(m, Edge(m, s, x), y), z) }

  /** Three clocks take one item, whatever arrives meanwhile. */
  lemma ThreeClocks(m: Memory, items: seq<Item>, s: Machine, j: nat, x: Input, y: Input, z: Input)
    requires Usable(items) && Programmed(m, items) && 1 <= j <= |items| && AtItem(s, items, j)
    ensures var t := Three(m, s, x, y, z);
      && SameFrame(s, t)
      && if j == |items| then Accepted(t, items) else AtItem(t, items, j + 1)
  {
    hide Looked, Programmed, WindowAt, Usable, Copied;
    var w := WindowAt(s.cell, s.hdrPtr);
    ChainIsFound(m, items, j, w);
    var f := Looked(m, s.fsm, w);
    assert Edge(m, s, x) == s.(ps := PsTcamWait, found := f);
    assert Edge(m, Edge(m, s, x), y) == s.(ps := PsProcess, found := f);
    ItemTaken(s.(ps := PsProcess, found := f), items, j);
  }

  lemma ItemTaken(s: Machine, items: seq<Item>, j: nat)
    requires Usable(items) && 1 <= j <= |items|
    requires s.ps == PsProcess && s.hdrPtr == 0 && s.meta == StartMeta(s.port, s.firstCell)
      && s.phv == Copied(s.cell, items, j - 1)
    requires s.found == Found(true, if j == |items| then ACCEPT else j + 1, items[j - 1].offset, items[j - 1].dst, 0)
    ensures var t := Extracted(s);
      && SameFrame(s, t)
      && if j == |items| then Accepted(t, items) else AtItem(t, items, j + 1)
  {
    assert items[j - 1].offset < 64 && items[j - 1].dst < 512;
    hide Usable;
  }

  lemma {:induction false} ChainRuns(m: Memory, items: seq<Item>, s: Machine, j: nat, xs: seq<Input>)
    requires Usable(items) && Programmed(m, items) && 1 <= j <= |items| && AtItem(s, items, j)
    requires |xs| == 3 * (|items| - j + 1)
    ensures var t := After(m, s, xs); Accepted(t, items) && SameFrame(s, t)
    decreases |items| - j
  {
    hide Three, AtItem, Accepted, Programmed, Usable, After;
    var t := Three(m, s, xs[0], xs[1], xs[2]);
    ThreeClocks(m, items, s, j, xs[0], xs[1], xs[2]);
    ThreeSteps(m, s, xs);
    if j == |items| {
      NoMore(m, t, xs[3..]);
    } else {
      ChainRuns(m, items, t, j + 1, xs[3..]);
    }
  }

  lemma NoMore(m: Memory, s: Machine, xs: seq<Input>)
    requires |xs| == 0
    ensures After(m, s, xs) == s
  {
  }

  lemma ThreeSteps(m: Memory, s: Machine, xs: seq<Input>)
    requires |xs| >= 3
    ensures After(m, s, xs) == After(m, Three(m, s, xs[0], xs[1], xs[2]), xs[3..])
  {
    hide Edge;
    assert xs[1..][0] == xs[1] && xs[1..][1..] == xs[2..];
    assert xs[2..][0] == xs[2] && xs[2..][1..] == xs[3..];
    assert After(m, s, xs) == After(m, Edge(m, s, xs[0]), xs[1..]);
    assert After(m, Edge(m, s, xs[0]), xs[1..]) == After(m, Edge(m, Edge(m, s, xs[0]), xs[1]), xs[2..]);
  }

  /** A chain of `n` items always reaches acceptance `3n` clocks after the first cell of a frame, whatever the cell
      holds and whatever arrives meanwhile, with a header vector that is zero but for the copied bytes, and metadata
      that name the port, the first buffer cell and the length so far. */
  lemma ChainAlwaysAccepts(m: Memory, items: seq<Item>, s: Machine, x: Input, xs: seq<Input>)
    requires Usable(items) && Programmed(m, items)
    requires s.ps == PsIdle && x.valid && x.sof && |xs| == 3 * |items|
    ensures var t := After(m, Edge(m, s, x), xs);
      && t.ps == (if x.eof then PsEmit else PsPayload) && t.phv == Copied(x.data, items, |items|)
      && t.meta == MauAlu.Meta(x.port, 0, false, false, false, 0, if x.eof then x.eopLen else 64, x.allocId, 0, 0)
  {
    ChainRuns(m, items, Edge(m, s, x), 1, xs);
    hide Programmed;
  }

  /** The further cells of a frame, of which the last one alone is marked as the end. */
  predicate RestOfFrame(xs: seq<Input>) {
    && xs != []
    && forall i :: 0 <= i < |xs| ==> xs[i].valid && (xs[i].eof <==> i == |xs| - 1)
  }

  /** The rest of a frame is counted into its length, and nothing else of what is handed on changes. */
  lemma {:induction false} LengthIsCounted(m: Memory, s: Machine, xs: seq<Input>)
    requires s.ps == PsPayload && RestOfFrame(xs)
    ensures var t := After(m, s, xs);
      && t.ps == PsEmit && t.phv == s.phv
      && t.meta == s.meta.(pktLen := (s.meta.pktLen + 64 * (|xs| - 1) + xs[|xs| - 1].eopLen) % 16384)
    decreases |xs|
  {
    hide Looked, WindowAt;
    var t := Edge(m, s, xs[0]);
    if |xs| == 1 {
      NoMore(m, t, xs[1..]);
    } else {
      LengthIsCounted(m, t, xs[1..]);
      AddModulo(s.meta.pktLen + 64, 64 * (|xs| - 2) + xs[|xs| - 1].eopLen);
    }
  }

  lemma AddModulo(a: nat, b: nat)
    ensures (a % 16384 + b) % 16384 == (a + b) % 16384
  {
  }

  /** An idle machine starts a frame with a first cell and with nothing else; the payload waits for cells, and a
      finished header vector for the next stage, which takes it and leaves the machine idle. */
  lemma PhasesWait(m: Memory, s: Machine, x: Input)
    ensures s.ps == PsIdle && !(x.valid && x.sof) ==> Edge(m, s, x) == s
    ensures s.ps == PsPayload && !x.valid ==> Edge(m, s, x) == s
    ensures s.ps == PsEmit && !x.phvReady ==> Edge(m, s, x) == s
    ensures s.ps == PsEmit && x.phvReady ==> Edge(m, s, x) == s.(ps := PsIdle, frameActive := false)
  {
    hide Looked;
  }

  // ----- the drop phase

  /** A miss marks the frame as dropped, and ends it at once if its first cell is its last. */
  lemma MissDrops(m: Memory, s: Machine, x: Input)
    requires s.ps == PsProcess && !s.found.hit
    ensures var t := Edge(m, s, x);
      && t.meta == s.meta.(drop := true) && t.phv == s.phv
      && t.ps == (if s.eof then PsIdle else PsDrop) && (t.frameActive <==> !s.eof)
  {
    hide Looked;
  }

  lemma {:induction false} DropIsForever(m: Memory, s: Machine, xs: seq<Input>)
    requires s.ps == PsDrop || (s.ps == PsProcess && !s.found.hit && !s.eof)
    ensures s.ps == PsDrop || xs != [] ==> After(m, s, xs).ps == PsDrop
    decreases |xs|
  {
    hide Looked, WindowAt;
    if xs != [] { DropIsForever(m, Edge(m, s, xs[0]), xs[1..]); }
  }

  predicate IsIdleAfter(m: Memory, s: Machine, xs: seq<Input>) { xs != [] && After(m, s, xs).ps == PsIdle }

  /** After a miss the machine can ever be idle again if and only if the missing cell was the last of its frame: cells
      are not taken in the drop phase, so the end of the frame that would leave it never arrives. */
  lemma MissRecoversIff(m: Memory, s: Machine)
    requires s.ps == PsProcess && !s.found.hit
    ensures (exists xs :: IsIdleAfter(m, s, xs)) <==> s.eof
  {
    hide Looked, WindowAt;
    if s.eof {
      var x := Input(false, false, false, 0, 0, seq(64, _ => 0), false, 0);
      NoMore(m, Edge(m, s, x), [x][1..]);
      assert IsIdleAfter(m, s, [x]);
    } else {
      forall xs | xs != [] ensures !IsIdleAfter(m, s, xs) {
        DropIsForever(m, s, xs);
      }
    }
  }

  /** With no valid entry, any frame longer than one cell leaves the machine in the drop phase from three clocks after
      its first cell on, and for good. */
  lemma EmptyMemoryHangs(m: Memory, s: Machine, x: Input, xs: seq<Input>)
    requires (forall a :: 0 <= a < DEPTH ==> !m[a][401]) && s.ps == PsIdle
    requires x.valid && x.sof && !x.eof && |xs| >= 3
    ensures After(m, Edge(m, s, x), xs).ps == PsDrop
  {
    hide WindowAt, Zeros;
    var t := Edge(m, s, x);
    var w := WindowAt(t.cell, t.hdrPtr);
    assert Looked(m, t.fsm, w) == Found(false, 0, 0, 0, 0);
    hide Looked;
    ThreeSteps(m, t, xs);
    DropIsForever(m, Three(m, t, xs[0], xs[1], xs[2]), xs[3..]);
    hide After;
  }
}
