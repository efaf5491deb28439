/** The update protocol seen one control cycle at a time: a control clock edge and the datapath edges up to the next
    one. The datapath clock is at least three times as fast, so there are three or more of them. */
module TueProtocol {
  import opened Words
  import opened MauTcam
  import opened MauAlu
  import opened MauStage
  import opened Tue

  /** The two memories of one stage. */
  datatype Tables = Tables(table: Table, rows: Rows)

  function Apply(tb: Tables, c: Config): Tables { Tables(Written(tb.table, c.tcam), WrittenRows(tb.rows, c)) }

  /** What a stage holds after the whole of a request has been applied to it. */
  function Applied(tb: Tables, l: Latch, tableId: uint16, id: nat): Tables { Apply(tb, Driven(l, tableId, true, id)) }

  lemma ApplyTwice(tb: Tables, c: Config)
    ensures Apply(Apply(tb, c), c) == Apply(tb, c)
  {
    var t := Written(tb.table, c.tcam);
    assert c.tcam.en ==> t[c.tcam.addr := c.tcam.entry] == t;
    var r := WrittenRows(tb.rows, c);
    assert c.asramEn ==> r[c.asramAddr := c.asramData] == r;
  }

  /** The state `k` datapath edges after a control edge left `s`. */
  function Synced(s: EngineState, k: nat): EngineState {
    s.(ff1 := if k == 0 then s.ff1 else s.pulse,
       pulseDp := if k == 0 then s.pulseDp else if k == 1 then s.ff1 else s.pulse)
  }

  /** Whether one of the first `k` edges has seen the synchronised pulse. */
  predicate Fired(s: EngineState, k: nat) {
    (k >= 1 && s.pulseDp) || (k >= 2 && s.ff1) || (k >= 3 && s.pulse)
  }

  function TablesAfter(s: EngineState, tb: Tables, k: nat, id: nat): Tables {
    if Fired(s, k) then Applied(tb, s.latch, s.regs.tableId, id) else tb
  }

  lemma DpEdgeStep(s: EngineState, tb: Tables, k: nat, id: nat)
    ensures Dp(Synced(s, k)) == Synced(s, k + 1)
    ensures Apply(TablesAfter(s, tb, k, id), Broadcast(Synced(s, k), id)) == TablesAfter(s, tb, k + 1, id)
  {
    ApplyTwice(tb, Driven(s.latch, s.regs.tableId, true, id));
    NothingDriven(TablesAfter(s, tb, k, id), s, id);
    hide Apply;
  }

  lemma NothingDriven(tb: Tables, s: EngineState, id: nat)
    ensures Apply(tb, Driven(s.latch, s.regs.tableId, false, id)) == tb
  {
  }

  /** The outcome of a control cycle with three datapath edges or more. */
  function Cycle(s: EngineState, x: Apb): EngineState { Synced(Ctrl(s, x), 3) }

  function CycleTables(s: EngineState, x: Apb, tb: Tables, id: nat): Tables { TablesAfter(Ctrl(s, x), tb, 3, id) }

  lemma MoreEdgesChangeNothing(s: EngineState, tb: Tables, k: nat, id: nat)
    requires k >= 3
    ensures Synced(s, k) == Synced(s, 3) && TablesAfter(s, tb, k, id) == TablesAfter(s, tb, 3, id)
  {
  }

  // ----- what holds between control cycles

  function StatusOf(ts: Phase): TwoBits {
    match ts
    case TsIdle => STATUS_IDLE
    case TsWaitDrain => STATUS_BUSY
    case TsApply => STATUS_BUSY
    case TsDone => STATUS_DONE
  }

  predicate Inv(s: EngineState) {
    && s.ff1 == s.pulseDp == s.pulse == s.ts.TsApply?
    && (s.commit ==> s.ts == TsIdle)
    && s.drain <= DRAIN_CYCLES
    && s.status == StatusOf(s.ts)
    && (s.ts == TsApply ==> s.latch == s.regs.request)
  }

  /** Every valid entry points at the row of its own table id: the id is its index in the low eleven bits. */
  ghost predicate OwnRows(t: Table) {
    forall i: Index :: t[i].valid ==> t[i].actionPtr % 2048 == i
  }

  /** Once the pulse has been taken, the tables hold the request. */
  ghost predicate Settled(s: EngineState, tb: Tables, id: nat) {
    OwnRows(tb.table) && (s.ts == TsApply ==> tb == Applied(tb, s.regs.request, s.regs.tableId, id))
  }

  lemma AppliedOwnsRows(tb: Tables, l: Latch, tableId: uint16, id: nat)
    requires OwnRows(tb.table)
    ensures OwnRows(Applied(tb, l, tableId, id).table)
  {
  }

  /** A request for an index without a valid entry touches no row that any entry points at. */
  lemma FreeIndexIsQuiet(tb: Tables, l: Latch, tableId: uint16, id: nat)
    requires OwnRows(tb.table) && (l.stage == id ==> !tb.table[tableId % 2048].valid)
    ensures Quiet(tb.table, tb.rows, Driven(l, tableId, true, id))
  {
  }

  predicate Pending(s: EngineState) { s.commit || s.ts == TsWaitDrain }

  /** No transaction is under way, and the synchronised pulse has ended. */
  predicate Resting(s: EngineState) {
    && !s.commit && (s.ts == TsIdle || s.ts == TsDone)
    && !s.pulse && !s.ff1 && !s.pulseDp
  }

  /** The tables as they will be when no transaction is under way any more. */
  function Outcome(s: EngineState, tb: Tables, id: nat): Tables {
    if Pending(s) then Applied(tb, s.regs.request, s.regs.tableId, id) else tb
  }

  /** Control cycles left before the status register stops reading busy. */
  function Left(s: EngineState): nat {
    if s.commit then DRAIN_CYCLES + 4
    else match s.ts
      case TsIdle => 0
      case TsWaitDrain => s.drain + 2
      case TsApply => 1
      case TsDone => 0
  }

  lemma RestingIff(s: EngineState)
    requires Inv(s)
    ensures Resting(s) <==> Left(s) == 0
  {
  }

  /** A cycle without a bus write keeps the invariant and the outcome, and brings the end nearer. */
  lemma QuiescentCycle(s: EngineState, tb: Tables, id: nat)
    requires Inv(s) && Settled(s, tb, id)
    ensures var s', tb' := Cycle(s, Quiescent), CycleTables(s, Quiescent, tb, id);
      && Inv(s') && Settled(s', tb', id) && s'.regs == s.regs
      && Outcome(s', tb', id) == Outcome(s, tb, id)
      && (if Left(s) == 0 then Left(s') == 0 && tb' == tb else Left(s') < Left(s))
  {
    ApplyTwice(tb, Driven(s.regs.request, s.regs.tableId, true, id));
    AppliedOwnsRows(tb, s.regs.request, s.regs.tableId, id);
    hide Apply, OwnRows;
  }

  /** A register write while nothing is under way changes that register, and no table of any stage. */
  lemma WriteCycle(s: EngineState, tb: Tables, id: nat, addr: nat, data: uint32)
    requires Inv(s) && Resting(s)
    ensures Cycle(s, Access(addr, data)) ==
      s.(regs := RegWrite(s.regs, addr, data), commit := addr == REG_COMMIT && data % 2 == 1,
         status := STATUS_IDLE, ts := TsIdle)
    ensures CycleTables(s, Access(addr, data), tb, id) == tb
    ensures Inv(Cycle(s, Access(addr, data)))
  {
    hide RegWrite;
  }

  /** Why a request must not follow before the status has left busy: the table id is read live while the pulse lasts, so
      a new id written in the cycle that ends the pulse makes the old request land there as well. */
  lemma EarlyTableIdLandsElsewhere(s: EngineState, tb: Tables, id: nat, data: uint32)
    requires Inv(s) && s.ts == TsApply
    ensures CycleTables(s, Access(REG_TABLE_ID, data), tb, id) == Applied(tb, s.regs.request, data % 65536, id)
  {
    hide Apply;
  }

  /** The register file has no place for the bits that name a destination: whatever action is installed through the
      engine, it can change only the first six bytes of a header vector. */
  lemma InstalledActionsWriteFirstBytes(l: Latch, hit: bool, f: Flit, hash: uint32, i: nat)
    requires 6 <= i < PHV_BYTES
    ensures Alu(RowOf(l), hit, f, hash).phv[i] == f.phv[i]
  {
    ActionTouchesOnlyDst(RowOf(l), hit, f, hash, i);
  }
}
