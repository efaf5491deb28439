/** The table update engine (rtl/tue/tue.sv): a register file and a transaction state machine in the control clock
    domain, a two-flop synchroniser in the datapath domain, and a configuration broadcast to every stage. */
module Tue {
  import opened Words
  import opened MauTcam
  import opened MauAlu
  import opened MauStage

  const REG_CMD: nat := 0x000
  const REG_TABLE_ID: nat := 0x004
  const REG_STAGE: nat := 0x008
  const REG_KEY_0: nat := 0x010
  const REG_MASK_0: nat := 0x050
  const REG_ACTION_ID: nat := 0x090
  const REG_ACTION_P0: nat := 0x094
  const REG_ACTION_P1: nat := 0x098
  const REG_ACTION_P2: nat := 0x09C
  const REG_STATUS: nat := 0x0A0
  const REG_COMMIT: nat := 0x0A4

  const CMD_INSERT := 0
  const CMD_DELETE := 1
  const CMD_FLUSH := 3

  const STATUS_IDLE := 0
  const STATUS_BUSY := 1
  const STATUS_DONE := 2
  const STATUS_ERROR := 3

  const DRAIN_CYCLES: nat := 32

  type TwoBits = n: int | 0 <= n < 4
  type FiveBits = n: int | 0 <= n < 32

  datatype Phase = TsIdle | TsWaitDrain | TsApply | TsDone

  /** What is latched for the datapath side when the drain has finished. The table id is not among it. */
  datatype Latch = Latch(
    cmd: TwoBits, stage: FiveBits, key: Key, mask: Key, actionId: uint16, p0: uint32, p1: uint32, p2: uint32)

  datatype Regs = Regs(request: Latch, tableId: uint16)

  datatype EngineState = EngineState(
    regs: Regs, commit: bool, status: TwoBits, ts: Phase, drain: nat, pulse: bool, latch: Latch,
    ff1: bool, pulseDp: bool)

  /** What the peripheral bus presents at a control clock edge. */
  datatype Apb = Quiescent | Access(addr: nat, data: uint32)

  /** A register write; an address no register answers to changes nothing. */
  function RegWrite(r: Regs, addr: nat, data: uint32): Regs {
    var q := r.request;
    if addr == REG_CMD then r.(request := q.(cmd := data % 4))
    else if addr == REG_TABLE_ID then r.(tableId := data % 65536)
    else if addr == REG_STAGE then r.(request := q.(stage := data % 32))
    else if REG_KEY_0 <= addr <= REG_KEY_0 + 0x3C then r.(request := q.(key := q.key[(addr - REG_KEY_0) / 4 := data]))
    else if REG_MASK_0 <= addr <= REG_MASK_0 + 0x3C then
      r.(request := q.(mask := q.mask[(addr - REG_MASK_0) / 4 := data]))
    else if addr == REG_ACTION_ID then r.(request := q.(actionId := data % 65536))
    else if addr == REG_ACTION_P0 then r.(request := q.(p0 := data))
    else if addr == REG_ACTION_P1 then r.(request := q.(p1 := data))
    else if addr == REG_ACTION_P2 then r.(request := q.(p2 := data))
    else r
  }

  /** The register map: which word each address holds. */
  lemma RegistersAt(r: Regs, i: nat, v: uint32)
    requires i < 16
    ensures var q := r.request;
      && RegWrite(r, 0x000, v) == r.(request := q.(cmd := v % 4))
      && RegWrite(r, 0x004, v) == r.(tableId := v % 65536)
      && RegWrite(r, 0x008, v) == r.(request := q.(stage := v % 32))
      && RegWrite(r, 0x010 + 4 * i, v) == r.(request := q.(key := q.key[i := v]))
      && RegWrite(r, 0x050 + 4 * i, v) == r.(request := q.(mask := q.mask[i := v]))
      && RegWrite(r, 0x090, v) == r.(request := q.(actionId := v % 65536))
      && RegWrite(r, 0x094, v) == r.(request := q.(p0 := v))
      && RegWrite(r, 0x098, v) == r.(request := q.(p1 := v))
      && RegWrite(r, 0x09C, v) == r.(request := q.(p2 := v))
  {
  }

  /** The transaction: a one written to the commit register starts it, 33 further cycles drain the datapath, one latches
      the request and raises the pulse, the next one ends the pulse, and the status reads busy, done and idle as 1, 2
      and 0. */
  lemma TransactionSteps(s: EngineState, data: uint32)
    ensures Ctrl(s, Access(0x0A4, data)).commit == (data % 2 == 1)
    ensures s.ts == TsIdle && s.commit ==>
      var t := Ctrl(s, Quiescent); t.ts == TsWaitDrain && t.drain == 32 && t.status == 1 && !t.pulse && !t.commit
    ensures s.ts == TsIdle && !s.commit ==>
      var t := Ctrl(s, Quiescent); t.ts == TsIdle && !t.pulse && t.status == s.status
    ensures s.ts == TsWaitDrain && s.drain > 0 ==>
      var t := Ctrl(s, Quiescent); t.ts == TsWaitDrain && t.drain == s.drain - 1 && t.latch == s.latch && !t.pulse
    ensures s.ts == TsWaitDrain && s.drain == 0 ==>
      var t := Ctrl(s, Quiescent); t.ts == TsApply && t.latch == s.regs.request && t.pulse
    ensures s.ts == TsApply ==> var t := Ctrl(s, Quiescent); t.ts == TsDone && !t.pulse && t.status == 2
    ensures s.ts == TsDone ==> var t := Ctrl(s, Quiescent); t.ts == TsIdle && !t.pulse && t.status == 0
  {
    hide RegWrite;
  }

  /** The state machine's part of a control clock edge. */
  function Advance(s: EngineState): EngineState {
    match s.ts
    case TsIdle =>
      if s.commit then s.(ts := TsWaitDrain, drain := DRAIN_CYCLES, status := STATUS_BUSY, pulse := false)
      else s.(pulse := false)
    case TsWaitDrain =>
      if s.drain == 0 then s.(ts := TsApply, pulse := true, latch := s.regs.request)
      else s.(drain := s.drain - 1, pulse := false)
    case TsApply => s.(ts := TsDone, status := STATUS_DONE, pulse := false)
    case TsDone => s.(ts := TsIdle, status := STATUS_IDLE, pulse := false)
  }

  /** A control clock edge: the state machine steps on the old registers while the bus writes the new ones. */
  function Ctrl(s: EngineState, x: Apb): EngineState {
    match x
    case Quiescent => Advance(s).(commit := false)
    case Access(addr, data) =>
      Advance(s).(regs := RegWrite(s.regs, addr, data), commit := addr == REG_COMMIT && data % 2 == 1)
  }

  /** A datapath clock edge: two flops in a row. */
  function Dp(s: EngineState): EngineState { s.(ff1 := s.pulse, pulseDp := s.ff1) }

  /** The row written for a request: its 32 high parameter bits do not exist in the register file. */
  function RowOf(l: Latch): Action { Action(l.actionId, 0, l.p2, l.p1, l.p0) }

  function EntryOf(l: Latch, tableId: uint16): Entry { Entry(l.key, l.mask, l.actionId, tableId, l.cmd == CMD_INSERT) }

  /** The configuration a stage is driven with. */
  function Broadcast(s: EngineState, id: nat): Config {
    Driven(s.latch, s.regs.tableId, s.pulseDp, id)
  }

  function Driven(l: Latch, tableId: uint16, on: bool, id: nat): Config {
    Config(
      Write(on && l.stage == id && l.cmd != CMD_FLUSH, tableId % 2048, EntryOf(l, tableId)),
      on && l.stage == id, tableId, RowOf(l))
  }

  function ZeroKey(): Key { seq(16, _ => 0) }

  function NoRequest(): Latch { Latch(0, 0, ZeroKey(), ZeroKey(), 0, 0, 0, 0) }

  function Reset(): EngineState {
    EngineState(Regs(NoRequest(), 0), false, STATUS_IDLE, TsIdle, 0, false, NoRequest(), false, false)
  }

  class Engine {
    var regs: Regs
    var commit: bool
    var status: TwoBits
    var ts: Phase
    var drainCnt: nat
    var applyPulseCtrl: bool
    var dpLatch: Latch
    var applyPulseDpFf1: bool
    var applyPulseDp: bool

    ghost function Value(): EngineState
      reads this
    {
      EngineState(regs, commit, status, ts, drainCnt, applyPulseCtrl, dpLatch, applyPulseDpFf1, applyPulseDp)
    }

    constructor ()
      ensures Value() == Reset()
    {
      regs, commit, status, ts := Regs(NoRequest(), 0), false, STATUS_IDLE, TsIdle;
      drainCnt, applyPulseCtrl, dpLatch := 0, false, NoRequest();
      applyPulseDpFf1, applyPulseDp := false, false;
    }

    method CtrlEdge(x: Apb)
      modifies this
      ensures Value() == Ctrl(old(Value()), x)
    {
      StepMachine();
      commit := false;
      if x.Access? {
        regs := RegWrite(regs, x.addr, x.data);
        if x.addr == REG_COMMIT { commit := x.data % 2 == 1; }
      }
    }

    method StepMachine()
      modifies this
      ensures Value() == Advance(old(Value()))
    {
      applyPulseCtrl := false;
      match ts {
        case TsIdle =>
          if commit {
            ts, drainCnt, status := TsWaitDrain, DRAIN_CYCLES, STATUS_BUSY;
          }
        case TsWaitDrain =>
          if drainCnt == 0 {
            ts, applyPulseCtrl, dpLatch := TsApply, true, regs.request;
          } else {
            drainCnt := drainCnt - 1;
          }
        case TsApply =>
          ts, status := TsDone, STATUS_DONE;
        case TsDone =>
          ts, status := TsIdle, STATUS_IDLE;
      }
    }

    method DpEdge()
      modifies this
      ensures Value() == Dp(old(Value()))
    {
      applyPulseDpFf1, applyPulseDp := applyPulseCtrl, applyPulseDpFf1;
    }

    /** The configuration a stage sees. */
    method Drive(id: nat) returns (c: Config)
      ensures c == Broadcast(Value(), id)
    {
      var l := dpLatch;
      var here := applyPulseDp && l.stage == id;
      c := Config(
        Write(here && l.cmd != CMD_FLUSH, regs.tableId % 2048,
              Entry(l.key, l.mask, l.actionId, regs.tableId, l.cmd == CMD_INSERT)),
        here, regs.tableId, Action(l.actionId, 0, l.p2, l.p1, l.p0));
    }

    /** What a bus read returns. */
    method Read(addr: nat) returns (data: uint32)
      ensures data == if addr == REG_STATUS then status else if addr == REG_STAGE then regs.request.stage else 0
    {
      data := if addr == REG_STATUS then status else if addr == REG_STAGE then regs.request.stage else 0;
    }
  }
}
