/** The hardware abstraction layer of the co-simulation bench (tb/cosim/cosim_main.cpp): it translates an entry, writes
    it into the registers of the update engine and waits a fixed time. On top of it, the hardware following the access
    list. */
module CosimDriver {
  import opened Words
  import opened Hal
  import opened MauTcam
  import opened MauStage
  import opened Tue
  import opened TueProtocol
  import opened TueDriver
  import opened RtlTranslation
  import Acl
  import Csr
  import Firmware
  import HardwareAcl

  const WAIT_CYCLES: nat := 60

  /** The request that the register writes of an insertion add up to. */
  function Translated(e: TcamEntry): Latch {
    Latch(CMD_INSERT, e.stage % 32, Packed(Used(e.key)), Packed(RtlMask(e.mask)), RtlActionId(e.actionId),
          RtlP0(e.actionId, e.params), 0, 0)
  }

  function WithRtlAction(r: Regs, e: TcamEntry): Regs {
    r.(request := r.request.(actionId := RtlActionId(e.actionId), p0 := RtlP0(e.actionId, e.params), p1 := 0, p2 := 0))
  }

  lemma RequestIsTranslated(r: Regs, e: TcamEntry)
    ensures
      var r1 := WithWords(Targeted(r, CMD_INSERT, e.tableId, e.stage), REG_KEY_0, Packed(Used(e.key)));
      WithRtlAction(WithWords(r1, REG_MASK_0, Packed(RtlMask(e.mask))), e) == Regs(Translated(e), e.tableId)
    ensures EntryOf(Translated(e), e.tableId) == RtlEntry(e) && RowOf(Translated(e)) == RtlRow(e)
  {
    hide Packed, Used, RtlMask, RtlP0, RtlActionId;
  }

  lemma TranslatedMeans(tb: Tables, e: TcamEntry, id: nat)
    requires e.stage < 7
    ensures Applied(tb, Translated(e), e.tableId, id) ==
      if e.stage == id then Tables(tb.table[e.tableId % 2048 := RtlEntry(e)], tb.rows[e.tableId := RtlRow(e)]) else tb
  {
    RequestIsTranslated(Regs(Translated(e), 0), e);
    assert Translated(e).stage == e.stage && Translated(e).cmd == CMD_INSERT;
    hide Translated, RtlEntry, RtlRow, EntryOf, RowOf;
  }

  /** The fixed wait: 60 control cycles, and two more for the synchroniser, are always enough. */
  method TueWaitDone(chip: Chip)
    requires chip.Sound()
    modifies chip.Repr()
    ensures chip.Valid() && chip.Extended() && chip.tue.Value().regs == old(chip.tue.Value().regs)
    ensures chip.Memory() == old(Outcome(chip.tue.Value(), chip.Memory(), chip.id))
  {
    hide Chip.OnWatch, Chip.Linear, Chip.Tracks, Chip.Recorded, Settled, Applied, WillBeQuiet;
    ghost var id := chip.id;
    for k := 0 to WAIT_CYCLES + 2
      invariant chip.Sound() && chip.Extended() && chip.tue.Value().regs == old(chip.tue.Value().regs)
      invariant Outcome(chip.tue.Value(), chip.Memory(), id) == old(Outcome(chip.tue.Value(), chip.Memory(), id))
      invariant Left(chip.tue.Value()) == 0 || Left(chip.tue.Value()) + k <= DRAIN_CYCLES + 4
    {
      hide Inv, Outcome, Left;
      chip.QuiescentStep();
    }
    RestingIff(chip.tue.Value());
  }

  method Commit(chip: Chip)
    requires chip.Valid()
    modifies chip.Repr()
    ensures chip.Valid() && chip.Extended() && chip.tue.Value().regs == old(chip.tue.Value().regs)
    ensures chip.Memory() ==
      Applied(old(chip.Memory()), old(chip.tue.Value().regs.request), old(chip.tue.Value().regs.tableId), chip.id)
  {
    hide Chip.OnWatch, Chip.Linear, Chip.Recorded, Settled, Inv, RegWrite, Resting, Applied;
    CommitKeepsRegs(chip.tue.Value().regs);
    chip.MmioWrite(REG_COMMIT, 1);
    TueWaitDone(chip);
  }

  method WriteKeyWords(chip: Chip, k: TcamKey)
    requires chip.Valid()
    modifies chip.Repr()
    ensures chip.Valid() && chip.Extended() && chip.Memory() == old(chip.Memory())
    ensures chip.tue.Value().regs == WithWords(old(chip.tue.Value().regs), REG_KEY_0, Packed(Used(k)))
  {
    hide Chip.OnWatch, Chip.Linear, Chip.Recorded, Settled, Inv, Resting, RegWrite, WithWords, WordsIn, Filled, Used;
    ghost var r, ws := chip.tue.Value().regs, Packed(Used(k));
    FilledEnds(r, REG_KEY_0, ws);
    for w := 0 to 16
      invariant chip.Valid() && chip.Extended() && chip.Memory() == old(chip.Memory())
      invariant chip.tue.Value().regs == WithWords(r, REG_KEY_0, Filled(WordsIn(r, REG_KEY_0), ws, w))
    {
      FilledStep(r, REG_KEY_0, ws, w);
      var word := KeyWord(k, w);
      chip.MmioWrite(REG_KEY_0 + w * 4, word);
    }
  }

  method WriteMaskWords(chip: Chip, m: TcamKey)
    requires chip.Valid()
    modifies chip.Repr()
    ensures chip.Valid() && chip.Extended() && chip.Memory() == old(chip.Memory())
    ensures chip.tue.Value().regs == WithWords(old(chip.tue.Value().regs), REG_MASK_0, Packed(RtlMask(m)))
  {
    hide Chip.OnWatch, Chip.Linear, Chip.Recorded, Settled, Inv, Resting, RegWrite, WithWords, WordsIn, Filled, RtlMask;
    ghost var r, ws := chip.tue.Value().regs, Packed(RtlMask(m));
    FilledEnds(r, REG_MASK_0, ws);
    for w := 0 to 16
      invariant chip.Valid() && chip.Extended() && chip.Memory() == old(chip.Memory())
      invariant chip.tue.Value().regs == WithWords(r, REG_MASK_0, Filled(WordsIn(r, REG_MASK_0), ws, w))
    {
      FilledStep(r, REG_MASK_0, ws, w);
      var word := MaskWord(m, w);
      chip.MmioWrite(REG_MASK_0 + w * 4, word);
    }
  }

  method WriteRtlAction(chip: Chip, e: TcamEntry)
    requires chip.Valid()
    modifies chip.Repr()
    ensures chip.Valid() && chip.Extended() && chip.Memory() == old(chip.Memory())
    ensures chip.tue.Value().regs == WithRtlAction(old(chip.tue.Value().regs), e)
  {
    hide Chip.OnWatch, Chip.Linear, Chip.Recorded, Settled, Inv, Resting, RtlActionId, RtlP0;
    chip.MmioWrite(REG_ACTION_ID, RtlActionId(e.actionId));
    chip.MmioWrite(REG_ACTION_P0, RtlP0(e.actionId, e.params));
    chip.MmioWrite(REG_ACTION_P1, 0);
    chip.MmioWrite(REG_ACTION_P2, 0);
  }

  method WriteTranslated(chip: Chip, e: TcamEntry)
    requires chip.Valid()
    modifies chip.Repr()
    ensures chip.Valid() && chip.Extended() && chip.Memory() == old(chip.Memory())
    ensures chip.tue.Value().regs == Regs(Translated(e), e.tableId)
  {
    hide Chip.OnWatch, Chip.Linear, Chip.Recorded, Settled, Inv, Resting;
    hide Targeted, WithWords, WithRtlAction, Translated;
    RequestIsTranslated(chip.tue.Value().regs, e);
    chip.WriteTarget(CMD_INSERT, e.tableId, e.stage);
    WriteKeyWords(chip, e.key);
    WriteMaskWords(chip, e.mask);
    WriteRtlAction(chip, e);
  }

  /** Installs the translation of an entry: on return the addressed stage holds exactly it, at its index, and every
      other entry, row and stage is as before. */
  method HalTcamInsert(chip: Chip, e: TcamEntry) returns (code: HalCode)
    requires chip.Valid()
    modifies chip.Repr()
    ensures chip.Valid() && chip.Extended() && code == if e.stage >= 7 then HalInval else HalOk
    ensures e.stage >= 7 || e.stage != chip.id ==> chip.Memory() == old(chip.Memory())
    ensures e.stage < 7 && e.stage == chip.id ==>
      chip.Memory() == Tables(old(chip.Memory()).table[e.tableId % 2048 := RtlEntry(e)],
                              old(chip.Memory()).rows[e.tableId := RtlRow(e)])
  {
    hide Chip.OnWatch, Chip.Linear, Chip.Recorded, Settled, Inv, Resting, Translated, Applied, RtlEntry, RtlRow;
    if e.stage >= 7 { return HalInval; }
    TranslatedMeans(chip.Memory(), e, chip.id);
    WriteTranslated(chip, e);
    Commit(chip);
    return HalOk;
  }

  /** Invalidates an entry; its row takes what the action registers hold. */
  method HalTcamDelete(chip: Chip, stage: uint8, tableId: uint16) returns (code: HalCode)
    requires chip.Valid()
    modifies chip.Repr()
    ensures chip.Valid() && chip.Extended() && code == HalOk
    ensures stage % 32 != chip.id ==> chip.Memory() == old(chip.Memory())
    ensures stage % 32 == chip.id ==>
      && !chip.Memory().table[tableId % 2048].valid
      && chip.Memory() == Tables(
        old(chip.Memory()).table[tableId % 2048 := chip.Memory().table[tableId % 2048]],
        old(chip.Memory()).rows[tableId := RowOf(old(chip.tue.Value().regs.request))])
  {
    hide Chip.OnWatch, Chip.Linear, Chip.Recorded, Settled, Inv, Resting, Applied;
    DeletedMeans(chip.Memory(), chip.tue.Value().regs, tableId, stage, chip.id);
    chip.WriteTarget(CMD_DELETE, tableId, stage);
    Commit(chip);
    return HalOk;
  }

  lemma DeletedMeans(tb: Tables, r: Regs, tableId: uint16, stage: uint8, id: nat)
    ensures var q := Targeted(r, CMD_DELETE, tableId, stage);
      Applied(tb, q.request, q.tableId, id) ==
        if stage % 32 == id then
          Tables(tb.table[tableId % 2048 := EntryOf(q.request, tableId)], tb.rows[tableId := RowOf(r.request)])
        else tb
    ensures !EntryOf(Targeted(r, CMD_DELETE, tableId, stage).request, tableId).valid
  {
  }

  // ----- the hardware following the access list of the firmware

  /** Does for a call of the firmware what it asks of the hardware stage of the access list. */
  method Follow(chip: Chip, f: Firmware.Fw, c: Firmware.Call) returns (ghost ev: HardwareAcl.Event)
    requires chip.Valid() && chip.id == Acl.ACL_STAGE
    modifies chip.Repr()
    ensures chip.Valid() && chip.Extended() && ev.call == c && !ev.dead.valid
    ensures (chip.Memory().table, chip.Memory().rows) ==
      HardwareAcl.Followed(f, old(chip.Memory()).table, old(chip.Memory()).rows, ev)
  {
    hide Chip.OnWatch, Chip.Linear, Chip.Recorded, Settled, Inv, Resting, RtlEntry, RtlRow, Acl.Add, Acl.Remove;
    hide Acl.EntryOf;
    ev := HardwareAcl.Event(c, BLANK, RowOf(chip.tue.Value().regs.request));
    match c {
      case AclAdd(rule) =>
        var r := rule.(valid := true, id := f.acl.nextId);
        Acl.EntryId(r);
        if Acl.Add(f.acl, f.vs.d, rule).0 >= 0 { var code := HalTcamInsert(chip, Acl.EntryOf(r)); }
      case AclDelete(id) =>
        if Acl.Remove(f.acl, f.vs.d, id).0 == HalOk {
          var code := HalTcamDelete(chip, Acl.ACL_STAGE, id);
          ev := ev.(dead := chip.Memory().table[id % 2048]);
        }
      case _ =>
    }
  }

  /** Runs calls of the firmware from boot with the hardware following, up to the first that is not permitted: the
      tables of the stage are at every moment what the run on both sides says. */
  method FollowAll(chip: Chip, cs: seq<Firmware.Call>)
    returns (f: Firmware.Fw, n: nat, ghost evs: seq<HardwareAcl.Event>)
    requires chip.Valid() && chip.id == Acl.ACL_STAGE && forall i: Index :: !chip.Memory().table[i].valid
    modifies chip.Repr()
    ensures chip.Valid() && chip.Extended() && n == |evs| <= |cs|
    ensures forall i :: 0 <= i < n ==> evs[i].call == cs[i]
    ensures n < |cs| ==> !HardwareAcl.PermittedCall(f, cs[n])
    ensures HardwareAcl.RunBoth(old(chip.Memory()).table, old(chip.Memory()).rows, evs) ==
      Some(HardwareAcl.Both(f, chip.Memory().table, chip.Memory().rows))
  {
    hide Chip.OnWatch, Chip.Linear, Chip.Recorded, Settled, Inv, Resting;
    hide HardwareAcl.Followed, HardwareAcl.PermittedCall, HardwareAcl.InStep, Firmware.Apply, Firmware.Boot;
    f, n, evs := Firmware.Boot(), 0, [];
    ghost var t, r := chip.Memory().table, chip.Memory().rows;
    while n < |cs|
      invariant chip.Valid() && chip.Extended() && n == |evs| <= |cs|
      invariant forall i :: 0 <= i < n ==> evs[i].call == cs[i]
      invariant HardwareAcl.RunBoth(t, r, evs) == Some(HardwareAcl.Both(f, chip.Memory().table, chip.Memory().rows))
    {
      if !HardwareAcl.PermittedCall(f, cs[n]) { return; }
      RunSized(t, r, evs);
      ghost var ev := Follow(chip, f, cs[n]);
      assert (evs + [ev])[..n] == evs;
      f := Firmware.Apply(f, cs[n]);
      evs, n := evs + [ev], n + 1;
    }
  }

  lemma RunSized(t: Table, r: Rows, evs: seq<HardwareAcl.Event>)
    requires (forall i: Index :: !t[i].valid) && HardwareAcl.RunBoth(t, r, evs).Some?
    ensures Csr.Sized(HardwareAcl.RunBoth(t, r, evs).value.f.vs.csr)
  {
    hide HardwareAcl.RunBoth;
    HardwareAcl.EveryRunInStep(t, r, evs);
    hide HardwareAcl.Mirrors;
  }
}
