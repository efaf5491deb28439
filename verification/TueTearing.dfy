/** Why deleting a live entry is not atomic: a run of the driver, and a header vector caught by it. */
module TueTearing {
  import opened Words
  import opened Bits
  import opened Hal
  import opened MauTcam
  import opened MauAlu
  import opened MauStage
  import opened Tue
  import opened TueProtocol
  import opened TueDriver

  type StageId = i: int | 0 <= i < 24

  function Zeros(): KeyBytes { seq(64, _ => 0) }

  function Ones(): KeyBytes { seq(64, _ => 0xFF) }

  /** An entry that drops everything: no key bit is compared. */
  function DropAll(id: StageId): TcamEntry {
    TcamEntry(TcamKey(Zeros(), 64), TcamKey(Ones(), 64), 0x9000, NoParams(), id, 0)
  }

  /** An entry for one key, which sends it to port 1. */
  function OneToPort1(id: StageId): TcamEntry {
    TcamEntry(TcamKey(Zeros()[0 := 1], 64), TcamKey(Zeros(), 64), 0xA000, NoParams()[2 := 1], id, 1)
  }

  /** Both entries are live, and no other one is. */
  ghost predicate BothLive(t: Table, r: Rows, id: StageId) {
    && t[0] == InstalledEntry(DropAll(id)) && r[0] == InstalledRow(DropAll(id))
    && t[1] == InstalledEntry(OneToPort1(id)) && r[1] == InstalledRow(OneToPort1(id))
    && forall i: Index :: i > 1 ==> !t[i].valid
  }

  /** The driver gets there from reset with two insertions, and its registers then still hold the second request. */
  method InsertBoth(id: StageId) returns (chip: Chip)
    ensures fresh(chip.Repr()) && chip.Valid() && chip.id == id
    ensures BothLive(chip.Memory().table, chip.Memory().rows, id)
    ensures chip.tue.Value().regs == Regs(Installed(OneToPort1(id)), 1)
  {
    chip := new Chip(id);
    hide InstalledEntry, InstalledRow, Installed, Zeros, Ones;
    ghost var tb := chip.Memory();
    InsertOne(chip, id, DropAll(id));
    InsertOne(chip, id, OneToPort1(id));
    BothInstalled(tb.table, tb.rows, id);
  }

  lemma BothInstalled(t: Table, r: Rows, id: StageId)
    requires forall i: Index :: !t[i].valid
    ensures BothLive(t[0 := InstalledEntry(DropAll(id))][1 := InstalledEntry(OneToPort1(id))],
                     r[0 := InstalledRow(DropAll(id))][1 := InstalledRow(OneToPort1(id))], id)
  {
    hide InstalledEntry, InstalledRow;
  }

  method InsertOne(chip: Chip, id: StageId, e: TcamEntry)
    requires chip.Valid() && chip.id == id && e.stage == id
    modifies chip.Repr()
    ensures chip.Valid() && chip.tue.Value().regs == Regs(Installed(e), e.tableId)
    ensures chip.Memory() == Tables(
      old(chip.Memory()).table[e.tableId % 2048 := InstalledEntry(e)],
      old(chip.Memory()).rows[e.tableId := InstalledRow(e)])
  {
    hide InstalledEntry, InstalledRow, Installed, Settled, Inv, Resting;
    hide Chip.OnWatch, Chip.Linear, Chip.Extended, Chip.Recorded;
    var code := chip.HalTcamInsert(e);
  }

  /** What the engine then drives into the stage for the deletion of the first entry. */
  function Deletion(id: StageId): Config {
    Driven(Targeted(Regs(Installed(OneToPort1(id)), 1), CMD_DELETE, 0, id).request, 0, true, id)
  }

  lemma DeletionIs(id: StageId)
    ensures var c := Deletion(id);
      && c.tcam.en && c.tcam.addr == 0 && !c.tcam.entry.valid
      && c.asramEn && c.asramAddr == 0 && c.asramData == InstalledRow(OneToPort1(id))
  {
    hide Packed, Used, WordAt;
  }

  lemma RowsAre(id: StageId)
    ensures InstalledRow(DropAll(id)) == Action(0x9000, 0, 0, 0, 0)
    ensures InstalledRow(OneToPort1(id)) == Action(0xA000, 0, 0, 0, 0x1_0000)
  {
  }

  lemma KeysAre(id: StageId)
    ensures forall i :: 0 <= i < 16 ==> InstalledEntry(DropAll(id)).mask[i] == 0xFFFF_FFFF
    ensures InstalledEntry(OneToPort1(id)).key[0] == 1 && InstalledEntry(OneToPort1(id)).mask[0] == 0
  {
    var ones, one, zero := Used(DropAll(id).mask), Used(OneToPort1(id).key), Used(OneToPort1(id).mask);
    assert one[0] == 1 && one[1] == one[2] == one[3] == 0 && zero[0] == zero[1] == zero[2] == zero[3] == 0;
    assert WordAt(one, 0) == 1 && WordAt(zero, 0) == 0;
    forall i | 0 <= i < 16 ensures WordAt(ones, i) == 0xFFFF_FFFF {
      assert ones[4 * i] == ones[4 * i + 1] == ones[4 * i + 2] == ones[4 * i + 3] == 0xFF;
    }
  }

  lemma FirstDropsAll(id: StageId, k: Key)
    ensures Matches(InstalledEntry(DropAll(id)), k)
  {
    var e := InstalledEntry(DropAll(id));
    KeysAre(id);
    Word32();
    hide InstalledEntry, DropAll;
    forall i | 0 <= i < 16 ensures WordMatches(k[i], e.key[i], 0xFFFF_FFFF) { AndZero(Xor(k[i], e.key[i], 32), 32); }
    assert e.valid by { IsValid(id); }
  }

  lemma IsValid(id: StageId)
    ensures InstalledEntry(DropAll(id)).valid
  {
  }

  lemma SecondNeedsOdd(id: StageId, k: Key)
    requires k[0] % 2 == 0
    ensures !Matches(InstalledEntry(OneToPort1(id)), k)
  {
    KeysAre(id);
    Word32();
    AgreeIffNoDifference(k[0], 1, 0xFFFF_FFFF, 32);
    assert !Agree(k[0], 1, 0xFFFF_FFFF, 32);
    hide InstalledEntry, OneToPort1, And, Xor, Agree;
    assert !WordMatches(k[0], 1, 0);
  }

  lemma OffDoesNothing(p: Pipe, x: Input, l: Latch, tableId: uint16, id: nat)
    requires x.cfg == Driven(l, tableId, false, id)
    ensures Edge(p, x).tcam.table == p.tcam.table && Edge(p, x).asram == p.asram
  {
    hide FirstFrom, Alu, KeyOf;
  }

  lemma WriteReplaces(p: Pipe, x: Input)
    requires x.cfg.tcam.en && x.cfg.asramEn
    ensures Edge(p, x).tcam.table == p.tcam.table[x.cfg.tcam.addr := x.cfg.tcam.entry]
    ensures Edge(p, x).asram == p.asram[x.cfg.asramAddr := x.cfg.asramData]
  {
    hide FirstFrom, Alu, KeyOf;
  }

  lemma LowBitOfKey(phv: Phv)
    ensures KeyOf(phv)[0] % 2 == phv[0] % 2
  {
    Four();
    assert KeyOf(phv)[0] == Field(phv, 0, 4) == phv[0] + 256 * Field(phv, 1, 3);
  }

  lemma OldSelects(t: Table, r: Rows, id: StageId, phv: Phv)
    requires BothLive(t, r, id)
    ensures Selected(t, phv) == Some(0)
  {
    FirstDropsAll(id, KeyOf(phv));
    FirstIsUnique(t, KeyOf(phv), Some(0));
    assert InstalledEntry(DropAll(id)).actionPtr == 0;
    hide Matches, KeyOf, InstalledEntry, FirstFrom;
  }

  lemma NewSelects(t: Table, r: Rows, id: StageId, phv: Phv)
    requires BothLive(t, r, id) && phv[0] % 2 == 0
    ensures Selected(t[0 := Deletion(id).tcam.entry], phv) == None
  {
    var u := t[0 := Deletion(id).tcam.entry];
    DeletionIs(id);
    LowBitOfKey(phv);
    SecondNeedsOdd(id, KeyOf(phv));
    hide WordMatches, KeyOf, InstalledEntry, Deletion, FirstFrom;
    FirstIsUnique(u, KeyOf(phv), None);
  }

  lemma MetaOutcomes(id: StageId, f: Flit, hash: uint32)
    ensures Alu(InstalledRow(OneToPort1(id)), true, f, hash).meta == f.meta.(egPort := 1)
    ensures Alu(InstalledRow(DropAll(id)), true, f, hash).meta == f.meta.(drop := true)
    ensures Alu(NO_ACTION, false, f, hash) == f
  {
    RowsAre(id);
    hide NewPhv, InstalledRow;
  }

  /** Deleting a live entry is not linearizable: a header vector that entered on the last edge before the synchronised
      pulse is neither dropped, as the old tables say, nor passed on, as the new ones do, but takes the action of the
      last request, whatever enters or is driven on the edges after. */
  lemma DeleteCanTear(p: Pipe, id: StageId, f: Flit, l: Latch, tableId: uint16,
                      next: Option<Flit>, x2: Input, x3: Input)
    requires BothLive(p.tcam.table, p.asram, id)
    requires f.phv[0] % 2 == 0 && !f.meta.drop && f.meta.egPort != 1
    ensures
      var p1 := Edge(p, Input(Some(f), Driven(l, tableId, false, id)));
      var p2 := Edge(p1, Input(next, Deletion(id)));
      var p4 := Edge(Edge(p2, x2), x3);
      && p4.s3.Some? && p4.s3.value.meta == f.meta.(egPort := 1)
      && (forall hash :: Process(p1.tcam.table, p1.asram, f, hash).meta == f.meta.(drop := true))
      && (forall hash :: Process(p2.tcam.table, p2.asram, f, hash) == f)
  {
    var x0, x1 := Input(Some(f), Driven(l, tableId, false, id)), Input(next, Deletion(id));
    var p1 := Edge(p, x0);
    var p2 := Edge(p1, x1);
    DeletionIs(id);
    OffDoesNothing(p, x0, l, tableId, id);
    WriteReplaces(p1, x1);
    FourEdges(p, x0, x1, x2, x3);
    OldSelects(p1.tcam.table, p1.asram, id, f.phv);
    NewSelects(p1.tcam.table, p1.asram, id, f.phv);
    MetaOutcomes(id, f, HashBeside(f, x1));
    forall hash
      ensures Alu(InstalledRow(DropAll(id)), true, f, hash).meta == f.meta.(drop := true)
      ensures Alu(NO_ACTION, false, f, hash) == f
    {
      MetaOutcomes(id, f, hash);
    }
    hide Edge, Alu, KeyOf, HashBeside, First, Selected, Deletion, InstalledRow, InstalledEntry, Driven;
  }

  // ----- the engine gets there

  /** The register contents at the commit of the deletion. */
  function DeletionRegs(id: StageId): Regs { Targeted(Regs(Installed(OneToPort1(id)), 1), CMD_DELETE, 0, id) }

  /** The engine after a number of control cycles in which the bus writes nothing. */
  function Cycles(s: EngineState, n: nat): EngineState {
    if n == 0 then s else Cycle(Cycles(s, n - 1), Quiescent)
  }

  lemma {:induction false} Draining(s: EngineState, n: nat)
    requires Inv(s) && s.commit && 1 <= n <= DRAIN_CYCLES + 1
    ensures var t := Cycles(s, n);
      Inv(t) && t.ts == TsWaitDrain && t.drain == DRAIN_CYCLES + 1 - n && t.regs == s.regs && !t.commit
  {
    if n > 1 {
      Draining(s, n - 1);
    } else {
      assert Cycles(s, 0) == s;
    }
  }

  /** From the commit of the deletion on the drain takes its cycles; the control edge after them raises the pulse, and
      the stage is then driven with no write on the first two datapath edges, and with the deletion on every edge after
      them until the control clock comes again. */
  lemma EngineDrivesDeletion(s: EngineState, id: StageId, k: nat)
    requires Inv(s) && s.commit && s.regs == DeletionRegs(id)
    ensures var t := Ctrl(Cycles(s, DRAIN_CYCLES + 1), Quiescent);
      Broadcast(Synced(t, k), id) ==
        if k < 2 then Driven(DeletionRegs(id).request, 0, false, id) else Deletion(id)
  {
    Draining(s, DRAIN_CYCLES + 1);
    hide Driven, Cycles;
  }
}
