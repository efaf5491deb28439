/** VLAN membership (sw/firmware/vlan.c): a software table of member and untagged bitmaps, its register mirrors, and one
    table entry of stage 6 for each port of each VLAN. */
module Vlan {
  import opened Words
  import opened Bits
  import opened Hal
  import opened SimHal
  import opened StageLists
  import opened PktModel
  import opened Csr

  const VLAN_MAX_ID: nat := 255
  const EGRESS_STAGE: uint8 := 6

  type Port = p: int | 0 <= p < 32
  type VlanId = v: int | 0 <= v < 256

  datatype VlanEntry = VlanEntry(member: Bitmap, untagged: Bitmap, valid: bool)

  type VlanDb = v: seq<VlanEntry> | |v| == 256 witness seq(256, _ => Unused())

  function Unused(): VlanEntry { VlanEntry(NoPorts(), NoPorts(), false) }

  /** The software table, the register mirrors and the table store. */
  datatype VlanState = VlanState(vlans: VlanDb, csr: Mirrors, d: Db)

  function EgressEntry(port: Port, vlan: VlanId): uint16 { port * 256 + vlan }

  function EgressRule(port: Port, vlan: VlanId, untagged: bool): TcamEntry {
    TcamEntry(TcamKey(Pad([port, vlan]), 2), TcamKey(Pad([0xFF, 0xFF]), 2),
              if untagged then ACTION_VLAN_STRIP_TAG else ACTION_VLAN_KEEP_TAG, NoParams(),
              EGRESS_STAGE, EgressEntry(port, vlan))
  }

  // ----- what each call does

  function Create(s: VlanState, vlan: uint16): (HalCode, VlanState)
    requires Sized(s.csr)
  {
    if vlan == 0 || vlan > VLAN_MAX_ID then (HalInval, s)
    else if s.vlans[vlan].valid then (HalOk, s)
    else (HalOk, s.(vlans := s.vlans[vlan := VlanEntry(NoPorts(), NoPorts(), true)],
                    csr := WithVlan(s.csr, vlan, NoPorts(), NoPorts())))
  }

  /** The store after the egress entries of the first `n` ports have been removed where the bitmap names them. */
  function PortsDeleted(d: Db, member: Bitmap, vlan: VlanId, n: nat): Db
    requires n <= 32
  {
    if n == 0 then d
    else
      var d' := PortsDeleted(d, member, vlan, n - 1);
      if member[n - 1] then Delete(d', EGRESS_STAGE, EgressEntry(n - 1, vlan)).1 else d'
  }

  function DeleteVlan(s: VlanState, vlan: uint16): (HalCode, VlanState)
    requires Sized(s.csr)
  {
    if vlan == 0 || vlan > VLAN_MAX_ID || !s.vlans[vlan].valid then (HalInval, s)
    else (HalOk, VlanState(s.vlans[vlan := Unused()], WithVlan(s.csr, vlan, NoPorts(), NoPorts()),
                           PortsDeleted(s.d, s.vlans[vlan].member, vlan, 32)))
  }

  function WithPort(e: VlanEntry, port: Port, member: bool, untagged: bool): VlanEntry {
    e.(member := e.member[port := member], untagged := e.untagged[port := untagged])
  }

  predicate Refuses(s: VlanState, vlan: uint16, port: uint8) {
    vlan == 0 || vlan > VLAN_MAX_ID || port >= 32 || !s.vlans[vlan].valid
  }

  function WithEntry(s: VlanState, vlan: VlanId, e: VlanEntry, d: Db): VlanState
    requires Sized(s.csr)
  {
    VlanState(s.vlans[vlan := e], WithVlan(s.csr, vlan, e.member, e.untagged), d)
  }

  /** Adds a port; what the store answers to the insertion is not looked at. */
  function PortAdd(s: VlanState, vlan: uint16, port: uint8, tagged: bool): (HalCode, VlanState)
    requires Sized(s.csr)
  {
    if Refuses(s, vlan, port) then (HalInval, s)
    else (HalOk, WithEntry(s, vlan, WithPort(s.vlans[vlan], port, true, !tagged),
                           Insert(s.d, EgressRule(port, vlan, !tagged)).1))
  }

  function PortRemove(s: VlanState, vlan: uint16, port: uint8): (HalCode, VlanState)
    requires Sized(s.csr)
  {
    if Refuses(s, vlan, port) then (HalInval, s)
    else (HalOk, WithEntry(s, vlan, WithPort(s.vlans[vlan], port, false, false),
                           Delete(s.d, EGRESS_STAGE, EgressEntry(port, vlan)).1))
  }

  class Vlans {
    const hal: Store
    const csr: CsrFile
    const vlanDb: array<VlanEntry>

    ghost predicate Valid()
      reads hal
    {
      hal.Valid() && csr.Valid() && vlanDb.Length == 256
    }

    ghost function Value(): (s: VlanState)
      reads hal, hal.db, csr.vlanMember, csr.vlanUntagged, csr.qosDscpMap, csr.vlanPvid, csr.vlanMode, vlanDb
      requires Valid()
      ensures Sized(s.csr)
    {
      VlanState(vlanDb[..], csr.Value(), hal.Value())
    }

    constructor (store: Store, regs: CsrFile)
      requires store.Valid() && regs.Valid()
      ensures Valid() && hal == store && csr == regs && fresh(vlanDb)
      ensures vlanDb[..] == seq(256, _ => Unused())
    {
      hal, csr := store, regs;
      vlanDb := new VlanEntry[256](_ => Unused());
    }

    method VlanCreate(vlan: uint16) returns (code: HalCode)
      requires Valid()
      modifies vlanDb, csr.vlanMember, csr.vlanUntagged
      ensures Valid() && (code, Value()) == Create(old(Value()), vlan)
    {
      if vlan == 0 || vlan > VLAN_MAX_ID { return HalInval; }
      if vlanDb[vlan].valid { return HalOk; }
      vlanDb[vlan] := VlanEntry(NoPorts(), NoPorts(), true);
      var r := csr.HalVlanMemberSet(vlan, NoPorts(), NoPorts());
      return HalOk;
    }

    method VlanDelete(vlan: uint16) returns (code: HalCode)
      requires Valid()
      modifies vlanDb, csr.vlanMember, csr.vlanUntagged, hal.db
      ensures Valid() && (code, Value()) == DeleteVlan(old(Value()), vlan)
    {
      hide Delete;
      if vlan == 0 || vlan > VLAN_MAX_ID { return HalInval; }
      if !vlanDb[vlan].valid { return HalInval; }
      var mbr := vlanDb[vlan].member;
      for p := 0 to 32
        invariant Valid() && vlanDb[..] == old(vlanDb[..]) && csr.Value() == old(csr.Value())
        invariant hal.Value() == PortsDeleted(old(hal.Value()), mbr, vlan, p)
      {
        if mbr[p] { var r := hal.HalTcamDelete(EGRESS_STAGE, EgressEntry(p, vlan)); }
      }
      vlanDb[vlan] := Unused();
      var r := csr.HalVlanMemberSet(vlan, NoPorts(), NoPorts());
      return HalOk;
    }

    method InstallEgressRule(port: Port, vlan: VlanId, untagged: bool)
      requires Valid()
      modifies hal`n, hal.db
      ensures Valid() && hal.Value() == Insert(old(hal.Value()), EgressRule(port, vlan, untagged)).1
    {
      hide Insert, EgressRule;
      var r := hal.HalTcamInsert(EgressRule(port, vlan, untagged));
    }

    method VlanPortAdd(vlan: uint16, port: uint8, tagged: bool) returns (code: HalCode)
      requires Valid()
      modifies vlanDb, csr.vlanMember, csr.vlanUntagged, hal`n, hal.db
      ensures Valid() && (code, Value()) == PortAdd(old(Value()), vlan, port, tagged)
    {
      hide Insert, EgressRule;
      if vlan == 0 || vlan > VLAN_MAX_ID { return HalInval; }
      if port >= 32 { return HalInval; }
      if !vlanDb[vlan].valid { return HalInval; }
      var e := vlanDb[vlan];
      e := e.(member := e.member[port := true]);
      if !tagged {
        e := e.(untagged := e.untagged[port := true]);
      } else {
        e := e.(untagged := e.untagged[port := false]);
      }
      vlanDb[vlan] := e;
      var r := csr.HalVlanMemberSet(vlan, e.member, e.untagged);
      InstallEgressRule(port, vlan, !tagged);
      return HalOk;
    }

    method VlanPortRemove(vlan: uint16, port: uint8) returns (code: HalCode)
      requires Valid()
      modifies vlanDb, csr.vlanMember, csr.vlanUntagged, hal.db
      ensures Valid() && (code, Value()) == PortRemove(old(Value()), vlan, port)
    {
      hide Delete;
      if vlan == 0 || vlan > VLAN_MAX_ID { return HalInval; }
      if port >= 32 { return HalInval; }
      if !vlanDb[vlan].valid { return HalInval; }
      var e := vlanDb[vlan];
      e := e.(member := e.member[port := false], untagged := e.untagged[port := false]);
      vlanDb[vlan] := e;
      var r := csr.HalVlanMemberSet(vlan, e.member, e.untagged);
      var r' := hal.HalTcamDelete(EGRESS_STAGE, EgressEntry(port, vlan));
      return HalOk;
    }
  }

  // ----- the software table, the mirrors and the stage-6 entries

  predicate IsMember(v: VlanDb, i: VlanId, p: Port) { v[i].member[p] }

  predicate IsUntagged(v: VlanDb, i: VlanId, p: Port) { v[i].untagged[p] }

  /** The entry belongs to a member port, and says what the untagged bit says. */
  ghost predicate Justified(v: VlanDb, e: TcamEntry) {
    var p, i := e.tableId / 256, e.tableId % 256;
    p < 32 && IsMember(v, i, p) && e == EgressRule(p, i, IsUntagged(v, i, p))
  }

  /** Every live entry of stage 6 belongs to a member port. */
  ghost predicate EntriesSound(v: VlanDb, l: seq<TcamEntry>) {
    UniqueIds(l) && forall e :: e in l ==> Justified(v, e)
  }

  /** The live entries of stage 6 are exactly the member bits. */
  ghost predicate EntriesAgree(v: VlanDb, l: seq<TcamEntry>) {
    && EntriesSound(v, l)
    && (forall i: VlanId, p: Port :: IsMember(v, i, p) ==> EgressRule(p, i, IsUntagged(v, i, p)) in l)
  }

  ghost predicate MirrorsAgree(v: VlanDb, c: Mirrors) {
    && Sized(c)
    && forall i: VlanId :: c.member[i] == v[i].member && c.untagged[i] == v[i].untagged
  }

  ghost predicate WellKept(v: VlanDb) {
    && (forall i: VlanId, p: Port :: IsUntagged(v, i, p) ==> IsMember(v, i, p))
    && (forall i: VlanId :: !v[i].valid ==> v[i].member == NoPorts())
    && !v[0].valid
  }

  /** The software table and the registers, which do not depend on what the store took. */
  ghost predicate TablesAgree(s: VlanState) { WellKept(s.vlans) && MirrorsAgree(s.vlans, s.csr) }

  /** What holds even when the store has turned entries away. */
  ghost predicate VlanSound(s: VlanState) { TablesAgree(s) && EntriesSound(s.vlans, LiveOf(s.d, EGRESS_STAGE)) }

  ghost predicate VlanInv(s: VlanState) { TablesAgree(s) && EntriesAgree(s.vlans, LiveOf(s.d, EGRESS_STAGE)) }

  lemma EgressId(port: Port, vlan: VlanId, untagged: bool)
    ensures var e := EgressRule(port, vlan, untagged);
      e.tableId / 256 == port && e.tableId % 256 == vlan && e.stage == EGRESS_STAGE
  {
  }

  lemma IdsApart(p: Port, i: VlanId, id: uint16)
    ensures id == EgressEntry(p, i) <==> id / 256 == p && id % 256 == i
  {
  }

  /** Setting a port's bits and its entry together keeps the entries in step. */
  lemma UpsertAgrees(v: VlanDb, l: seq<TcamEntry>, vlan: VlanId, port: Port, untagged: bool)
    requires EntriesAgree(v, l)
    ensures EntriesAgree(v[vlan := WithPort(v[vlan], port, true, untagged)],
      Upserted(l, EgressRule(port, vlan, untagged)))
  {
    var r := EgressRule(port, vlan, untagged);
    var v' := v[vlan := WithPort(v[vlan], port, true, untagged)];
    UpsertedMembers(l, r);
    EgressId(port, vlan, untagged);
    var l' := Upserted(l, r);
    forall i: VlanId, p: Port ensures EgressRule(p, i, IsUntagged(v, i, p)).tableId == EgressEntry(p, i) {}
    hide EgressRule, UniqueIds, Upserted;
    forall e | e in l' ensures Justified(v', e) {
      IdsApart(port, vlan, e.tableId);
    }
    forall i: VlanId, p: Port | IsMember(v', i, p) ensures EgressRule(p, i, IsUntagged(v', i, p)) in l' {
      IdsApart(port, vlan, EgressEntry(p, i));
      IdsApart(p, i, EgressEntry(p, i));
    }
  }

  /** Clearing a port's bits and removing its entry together keeps the entries in step. */
  lemma RemoveAgrees(v: VlanDb, l: seq<TcamEntry>, vlan: VlanId, port: Port)
    requires EntriesAgree(v, l)
    ensures EntriesAgree(v[vlan := WithPort(v[vlan], port, false, false)], Removed(l, EgressEntry(port, vlan)))
  {
    var id := EgressEntry(port, vlan);
    var v' := v[vlan := WithPort(v[vlan], port, false, false)];
    RemovedMembers(l, id);
    var l' := Removed(l, id);
    forall i: VlanId, p: Port ensures EgressRule(p, i, IsUntagged(v, i, p)).tableId == EgressEntry(p, i) {}
    hide EgressRule, UniqueIds, Removed;
    forall e | e in l' ensures Justified(v', e) {
      IdsApart(port, vlan, e.tableId);
    }
    forall i: VlanId, p: Port | IsMember(v', i, p) ensures EgressRule(p, i, IsUntagged(v', i, p)) in l' {
      IdsApart(port, vlan, EgressEntry(p, i));
      IdsApart(p, i, EgressEntry(p, i));
    }
  }

  lemma MirrorsFollow(v: VlanDb, c: Mirrors, vlan: VlanId, e: VlanEntry)
    requires MirrorsAgree(v, c)
    ensures MirrorsAgree(v[vlan := e], WithVlan(c, vlan, e.member, e.untagged))
  {
  }

  lemma CreateKeepsInv(s: VlanState, vlan: uint16)
    requires VlanInv(s)
    ensures VlanInv(Create(s, vlan).1)
  {
    if 0 < vlan <= 255 && !s.vlans[vlan].valid {
      var e := VlanEntry(NoPorts(), NoPorts(), true);
      MirrorsFollow(s.vlans, s.csr, vlan, e);
      assert s.vlans[vlan].member == NoPorts();
      var v' := s.vlans[vlan := e];
      assert forall i: VlanId, p: Port :: IsMember(v', i, p) == IsMember(s.vlans, i, p);
      NoBitsChanged(s.vlans, v', LiveOf(s.d, EGRESS_STAGE));
      hide EntriesAgree, LiveOf, MirrorsAgree;
    }
  }

  lemma NoBitsChanged(v: VlanDb, v': VlanDb, l: seq<TcamEntry>)
    requires EntriesAgree(v, l) && WellKept(v)
    requires forall i: VlanId, p: Port :: IsMember(v', i, p) == IsMember(v, i, p)
    requires forall i: VlanId, p: Port :: IsMember(v, i, p) ==> IsUntagged(v', i, p) == IsUntagged(v, i, p)
    ensures EntriesAgree(v', l)
  {
    hide EgressRule, UniqueIds;
    forall e | e in l ensures Justified(v', e) {
      assert Justified(v, e);
    }
  }

  lemma WithPortWellKept(v: VlanDb, vlan: VlanId, port: Port, member: bool, untagged: bool)
    requires WellKept(v) && v[vlan].valid && (untagged ==> member)
    ensures WellKept(v[vlan := WithPort(v[vlan], port, member, untagged)])
  {
    var v' := v[vlan := WithPort(v[vlan], port, member, untagged)];
    forall i: VlanId, p: Port | IsUntagged(v', i, p) ensures IsMember(v', i, p) {
      assert IsUntagged(v, i, p) ==> IsMember(v, i, p);
    }
  }

  lemma UnusedWellKept(v: VlanDb, vlan: VlanId)
    requires WellKept(v)
    ensures WellKept(v[vlan := Unused()])
  {
    var v' := v[vlan := Unused()];
    forall i: VlanId, p: Port | IsUntagged(v', i, p) ensures IsMember(v', i, p) {
      assert IsUntagged(v, i, p) ==> IsMember(v, i, p);
    }
  }

  lemma MemberHasEntry(v: VlanDb, l: seq<TcamEntry>, vlan: VlanId, port: Port)
    requires EntriesAgree(v, l) && IsMember(v, vlan, port)
    ensures Has(l, EgressEntry(port, vlan))
  {
    var r := EgressRule(port, vlan, IsUntagged(v, vlan, port));
    var i :| 0 <= i < |l| && l[i] == r;
    assert l[i].tableId == EgressEntry(port, vlan);
  }

  lemma EntryHasMember(v: VlanDb, l: seq<TcamEntry>, vlan: VlanId, port: Port)
    requires EntriesAgree(v, l) && Has(l, EgressEntry(port, vlan))
    ensures IsMember(v, vlan, port)
  {
    var i :| 0 <= i < |l| && l[i].tableId == EgressEntry(port, vlan);
    IdsApart(port, vlan, l[i].tableId);
    hide EgressRule, UniqueIds;
    assert Justified(v, l[i]);
  }

  /** There is room for the entry of a port: a free record, or the record the port already has as a member. */
  predicate HasRoomFor(s: VlanState, vlan: VlanId, port: Port) { |s.d| < TCAM_MAX || IsMember(s.vlans, vlan, port) }

  /** The store takes the entry exactly when there is room for it. */
  lemma PortAddIsTaken(s: VlanState, vlan: VlanId, port: Port, untagged: bool)
    requires VlanInv(s)
    ensures Insert(s.d, EgressRule(port, vlan, untagged)).0 == HalOk <==> HasRoomFor(s, vlan, port)
  {
    var l := LiveOf(s.d, EGRESS_STAGE);
    if IsMember(s.vlans, vlan, port) { MemberHasEntry(s.vlans, l, vlan, port); }
    if Has(l, EgressEntry(port, vlan)) { EntryHasMember(s.vlans, l, vlan, port); }
    FindIffHas(s.d, EGRESS_STAGE, EgressEntry(port, vlan));
    hide VlanInv, LiveOf, Has, Find;
  }

  /** Adding a port keeps everything in step if and only if there is room for its entry: the call does not look at the
      answer of the store, and sets the member bit even when the store is full. */
  lemma PortAddKeepsInvIff(s: VlanState, vlan: uint16, port: uint8, tagged: bool)
    requires VlanInv(s) && !Refuses(s, vlan, port)
    ensures VlanInv(PortAdd(s, vlan, port, tagged).1) <==> HasRoomFor(s, vlan, port)
  {
    PortAddIsTaken(s, vlan, port, !tagged);
    var e := WithPort(s.vlans[vlan], port, true, !tagged);
    var r := EgressRule(port, vlan, !tagged);
    MirrorsFollow(s.vlans, s.csr, vlan, e);
    WithPortWellKept(s.vlans, vlan, port, true, !tagged);
    EgressId(port, vlan, !tagged);
    InsertPerStage(s.d, r, EGRESS_STAGE);
    var l := LiveOf(s.d, EGRESS_STAGE);
    if Insert(s.d, r).0 == HalOk {
      UpsertAgrees(s.vlans, l, vlan, port, !tagged);
    } else if EntriesAgree(s.vlans[vlan := e], l) {
      MemberHasEntry(s.vlans[vlan := e], l, vlan, port);
    }
    hide EntriesAgree, WellKept, MirrorsAgree, Insert, LiveOf, Upserted, EgressRule, Has, HasRoomFor;
  }

  lemma PortRemoveKeepsInv(s: VlanState, vlan: uint16, port: uint8)
    requires VlanInv(s)
    ensures VlanInv(PortRemove(s, vlan, port).1)
  {
    if !Refuses(s, vlan, port) {
      MirrorsFollow(s.vlans, s.csr, vlan, WithPort(s.vlans[vlan], port, false, false));
      WithPortWellKept(s.vlans, vlan, port, false, false);
      DeletePerStage(s.d, EGRESS_STAGE, EgressEntry(port, vlan), EGRESS_STAGE);
      RemoveAgrees(s.vlans, LiveOf(s.d, EGRESS_STAGE), vlan, port);
      hide EntriesAgree, WellKept, MirrorsAgree, Delete, LiveOf, Removed;
    }
  }

  function Cleared(e: VlanEntry, n: nat): VlanEntry {
    e.(member := seq(32, p requires 0 <= p < 32 => n <= p && e.member[p]),
       untagged := seq(32, p requires 0 <= p < 32 => n <= p && e.untagged[p]))
  }

  lemma ClearedStep(e: VlanEntry, n: Port)
    ensures WithPort(Cleared(e, n), n, false, false) == Cleared(e, n + 1)
    ensures !e.member[n] && !e.untagged[n] ==> Cleared(e, n) == Cleared(e, n + 1)
    ensures Cleared(e, 0) == e
  {
  }

  lemma {:induction false} PortsDeletedAgree(s: VlanState, vlan: VlanId, n: nat)
    requires VlanInv(s) && n <= 32
    ensures EntriesAgree(s.vlans[vlan := Cleared(s.vlans[vlan], n)],
                         LiveOf(PortsDeleted(s.d, s.vlans[vlan].member, vlan, n), EGRESS_STAGE))
  {
    var e := s.vlans[vlan];
    if n == 0 {
      ClearedStep(e, 0);
      assert s.vlans[vlan := e] == s.vlans;
    } else {
      PortsDeletedAgree(s, vlan, n - 1);
      var d' := PortsDeleted(s.d, e.member, vlan, n - 1);
      var v := s.vlans[vlan := Cleared(e, n - 1)];
      ClearedStep(e, n - 1);
      assert IsUntagged(s.vlans, vlan, n - 1) ==> IsMember(s.vlans, vlan, n - 1);
      DeletePerStage(d', EGRESS_STAGE, EgressEntry(n - 1, vlan), EGRESS_STAGE);
      RemoveAgrees(v, LiveOf(d', EGRESS_STAGE), vlan, n - 1);
      hide EntriesAgree, WellKept, MirrorsAgree, Delete, LiveOf, Removed, Cleared;
      assert v[vlan := Cleared(e, n)] == s.vlans[vlan := Cleared(e, n)];
    }
  }

  lemma DeleteKeepsInv(s: VlanState, vlan: uint16)
    requires VlanInv(s)
    ensures VlanInv(DeleteVlan(s, vlan).1)
  {
    if 0 < vlan <= 255 && s.vlans[vlan].valid {
      MirrorsFollow(s.vlans, s.csr, vlan, Unused());
      UnusedWellKept(s.vlans, vlan);
      PortsDeletedAgree(s, vlan, 32);
      var l' := LiveOf(PortsDeleted(s.d, s.vlans[vlan].member, vlan, 32), EGRESS_STAGE);
      SameBitsAgree(s.vlans[vlan := Cleared(s.vlans[vlan], 32)], s.vlans[vlan := Unused()], l');
      hide EntriesAgree, MirrorsAgree, WellKept, LiveOf, PortsDeleted;
    }
  }

  lemma SameBitsAgree(v: VlanDb, v': VlanDb, l: seq<TcamEntry>)
    requires EntriesAgree(v, l)
    requires forall i: VlanId, p: Port :: IsMember(v', i, p) == IsMember(v, i, p)
    requires forall i: VlanId, p: Port :: IsUntagged(v', i, p) == IsUntagged(v, i, p)
    ensures EntriesAgree(v', l)
  {
    hide EgressRule, UniqueIds;
    forall e | e in l ensures Justified(v', e) {
      assert Justified(v, e);
    }
  }

  // ----- what every call keeps, whether or not the store takes its entry

  lemma UpsertSound(v: VlanDb, l: seq<TcamEntry>, vlan: VlanId, port: Port, untagged: bool)
    requires EntriesSound(v, l)
    ensures EntriesSound(v[vlan := WithPort(v[vlan], port, true, untagged)],
      Upserted(l, EgressRule(port, vlan, untagged)))
  {
    var r := EgressRule(port, vlan, untagged);
    UpsertedMembers(l, r);
    EgressId(port, vlan, untagged);
    hide EgressRule, UniqueIds, Upserted;
    forall e | e in Upserted(l, r) ensures Justified(v[vlan := WithPort(v[vlan], port, true, untagged)], e) {
      IdsApart(port, vlan, e.tableId);
    }
  }

  lemma OtherBitsSound(v: VlanDb, l: seq<TcamEntry>, vlan: VlanId, port: Port, member: bool, untagged: bool)
    requires EntriesSound(v, l) && !Has(l, EgressEntry(port, vlan))
    ensures EntriesSound(v[vlan := WithPort(v[vlan], port, member, untagged)], l)
  {
    hide EgressRule, UniqueIds;
    forall e | e in l ensures Justified(v[vlan := WithPort(v[vlan], port, member, untagged)], e) {
      var i :| 0 <= i < |l| && l[i] == e;
      IdsApart(port, vlan, e.tableId);
    }
  }

  lemma RemoveSound(v: VlanDb, l: seq<TcamEntry>, vlan: VlanId, port: Port)
    requires EntriesSound(v, l)
    ensures EntriesSound(v[vlan := WithPort(v[vlan], port, false, false)], Removed(l, EgressEntry(port, vlan)))
  {
    RemovedMembers(l, EgressEntry(port, vlan));
    hide EgressRule, UniqueIds, Removed;
    forall e | e in Removed(l, EgressEntry(port, vlan))
      ensures Justified(v[vlan := WithPort(v[vlan], port, false, false)], e)
    {
      IdsApart(port, vlan, e.tableId);
    }
  }

  lemma {:induction false} PortsDeletedSound(s: VlanState, vlan: VlanId, n: nat)
    requires VlanSound(s) && n <= 32
    ensures EntriesSound(s.vlans[vlan := Cleared(s.vlans[vlan], n)],
                         LiveOf(PortsDeleted(s.d, s.vlans[vlan].member, vlan, n), EGRESS_STAGE))
  {
    var e := s.vlans[vlan];
    if n == 0 {
      ClearedStep(e, 0);
      assert s.vlans[vlan := e] == s.vlans;
    } else {
      PortsDeletedSound(s, vlan, n - 1);
      var d' := PortsDeleted(s.d, e.member, vlan, n - 1);
      var v := s.vlans[vlan := Cleared(e, n - 1)];
      ClearedStep(e, n - 1);
      assert IsUntagged(s.vlans, vlan, n - 1) ==> IsMember(s.vlans, vlan, n - 1);
      DeletePerStage(d', EGRESS_STAGE, EgressEntry(n - 1, vlan), EGRESS_STAGE);
      RemoveSound(v, LiveOf(d', EGRESS_STAGE), vlan, n - 1);
      hide EntriesSound, WellKept, MirrorsAgree, Delete, LiveOf, Removed, Cleared;
      assert v[vlan := Cleared(e, n)] == s.vlans[vlan := Cleared(e, n)];
    }
  }

  lemma SameBitsSound(v: VlanDb, v': VlanDb, l: seq<TcamEntry>)
    requires EntriesSound(v, l)
    requires forall i: VlanId, p: Port :: IsMember(v', i, p) == IsMember(v, i, p)
    requires forall i: VlanId, p: Port :: IsMember(v, i, p) ==> IsUntagged(v', i, p) == IsUntagged(v, i, p)
    ensures EntriesSound(v', l)
  {
    hide EgressRule, UniqueIds;
    forall e | e in l ensures Justified(v', e) {
      assert Justified(v, e);
    }
  }

  lemma CreateKeepsSound(s: VlanState, vlan: uint16)
    requires VlanSound(s)
    ensures VlanSound(Create(s, vlan).1)
  {
    if 0 < vlan <= 255 && !s.vlans[vlan].valid {
      var e := VlanEntry(NoPorts(), NoPorts(), true);
      MirrorsFollow(s.vlans, s.csr, vlan, e);
      assert s.vlans[vlan].member == NoPorts();
      var v' := s.vlans[vlan := e];
      assert forall i: VlanId, p: Port :: IsMember(v', i, p) == IsMember(s.vlans, i, p);
      SameBitsSound(s.vlans, v', LiveOf(s.d, EGRESS_STAGE));
      CreatedWellKept(s.vlans, vlan);
      hide EntriesSound, LiveOf, MirrorsAgree, WellKept;
    }
  }

  lemma DeleteKeepsSound(s: VlanState, vlan: uint16)
    requires VlanSound(s)
    ensures VlanSound(DeleteVlan(s, vlan).1)
  {
    if 0 < vlan <= 255 && s.vlans[vlan].valid {
      MirrorsFollow(s.vlans, s.csr, vlan, Unused());
      UnusedWellKept(s.vlans, vlan);
      PortsDeletedSound(s, vlan, 32);
      var l' := LiveOf(PortsDeleted(s.d, s.vlans[vlan].member, vlan, 32), EGRESS_STAGE);
      SameBitsSound(s.vlans[vlan := Cleared(s.vlans[vlan], 32)], s.vlans[vlan := Unused()], l');
      hide EntriesSound, MirrorsAgree, WellKept, LiveOf, PortsDeleted;
    }
  }

  /** Adding a port, whether or not the store takes its entry. */
  lemma PortAddKeepsSound(s: VlanState, vlan: uint16, port: uint8, tagged: bool)
    requires VlanSound(s)
    ensures VlanSound(PortAdd(s, vlan, port, tagged).1)
  {
    if !Refuses(s, vlan, port) {
      var e, r := WithPort(s.vlans[vlan], port, true, !tagged), EgressRule(port, vlan, !tagged);
      MirrorsFollow(s.vlans, s.csr, vlan, e);
      WithPortWellKept(s.vlans, vlan, port, true, !tagged);
      EgressId(port, vlan, !tagged);
      InsertPerStage(s.d, r, EGRESS_STAGE);
      var l := LiveOf(s.d, EGRESS_STAGE);
      if Insert(s.d, r).0 == HalOk {
        UpsertSound(s.vlans, l, vlan, port, !tagged);
      } else {
        IdsApart(port, vlan, r.tableId);
        OtherBitsSound(s.vlans, l, vlan, port, true, !tagged);
      }
      hide EntriesSound, WellKept, MirrorsAgree, Insert, LiveOf, Upserted, EgressRule, Has;
    }
  }

  lemma PortRemoveKeepsSound(s: VlanState, vlan: uint16, port: uint8)
    requires VlanSound(s)
    ensures VlanSound(PortRemove(s, vlan, port).1)
  {
    if !Refuses(s, vlan, port) {
      MirrorsFollow(s.vlans, s.csr, vlan, WithPort(s.vlans[vlan], port, false, false));
      WithPortWellKept(s.vlans, vlan, port, false, false);
      DeletePerStage(s.d, EGRESS_STAGE, EgressEntry(port, vlan), EGRESS_STAGE);
      RemoveSound(s.vlans, LiveOf(s.d, EGRESS_STAGE), vlan, port);
      hide EntriesSound, WellKept, MirrorsAgree, Delete, LiveOf, Removed;
    }
  }

  lemma SoundSized(s: VlanState)
    requires VlanSound(s)
    ensures Sized(s.csr)
  {
  }

  lemma CreatedWellKept(v: VlanDb, vlan: VlanId)
    requires WellKept(v) && vlan != 0
    ensures WellKept(v[vlan := VlanEntry(NoPorts(), NoPorts(), true)])
  {
    var v' := v[vlan := VlanEntry(NoPorts(), NoPorts(), true)];
    forall i: VlanId, p: Port | IsUntagged(v', i, p) ensures IsMember(v', i, p) {
      assert IsUntagged(v, i, p) ==> IsMember(v, i, p);
    }
  }

  // ----- what a packet experiences

  lemma RuleMatchesIff(port: Port, vlan: VlanId, untagged: bool, key: KeyBytes)
    ensures EntryMatches(EgressRule(port, vlan, untagged), key, 2) <==> key[0] == port && key[1] == vlan
  {
    var e := EgressRule(port, vlan, untagged);
    assert e.mask.bytes[0] == 0xFF && e.mask.bytes[1] == 0xFF && e.key.bytes[0] == port && e.key.bytes[1] == vlan;
    Byte8();
    AndOnes(key[0], 8);
    AndOnes(key[1], 8);
    AndOnes(port, 8);
    AndOnes(vlan, 8);
    hide And, Pow2, EgressRule;
    assert EntryMatches(e, key, 2) <==> ByteMatches(e, key, 0) && ByteMatches(e, key, 1);
  }

  /** What stage 6 is to do with a packet, by the software table alone. */
  function EgressOutcome(v: VlanDb, p: Phv): Phv {
    var vlan := p.vlanId % 256;
    if p.egPort < 32 && IsMember(v, vlan, p.egPort) then
      if IsUntagged(v, vlan, p.egPort)
      then p.(vlanAction := ActStrip, hdr := p.hdr[OFF_VLAN_TCI := 0][OFF_VLAN_TCI + 1 := 0])
      else p.(vlanAction := ActKeep)
    else p
  }

  lemma RuleActs(p: Phv, v: VlanDb)
    requires p.egPort < 32 && IsMember(v, p.vlanId % 256, p.egPort)
    ensures Applied(p, EgressRule(p.egPort, p.vlanId % 256, IsUntagged(v, p.vlanId % 256, p.egPort))) ==
      EgressOutcome(v, p)
  {
    hide Pad;
  }

  /** Whether or not entries have been turned away: a packet whose VLAN and output port have an entry has its tag
      stripped or kept as their bits say, and any other is left alone. */
  lemma StageSixActsOnEntries(s: VlanState, p: Phv)
    requires VlanSound(s)
    ensures var has := p.egPort < 32 && Has(LiveOf(s.d, EGRESS_STAGE), EgressEntry(p.egPort, p.vlanId % 256));
      && Step(s.d, p, EGRESS_STAGE) == (if has then EgressOutcome(s.vlans, p) else p)
      && (has ==> IsMember(s.vlans, p.vlanId % 256, p.egPort))
  {
    var vlan: VlanId := p.vlanId % 256;
    var key := Pad(KeyBytesOf(p, EGRESS_STAGE));
    assert key[0] == p.egPort && key[1] == vlan && |KeyBytesOf(p, EGRESS_STAGE)| == 2;
    var l := LiveOf(s.d, EGRESS_STAGE);
    LookupIsFirstMatch(s.d, EGRESS_STAGE, key, 2);
    FirstMatchIsMember(l, key, 2);
    hide EntryMatches, LiveOf, FirstMatch, Lookup, Pad, UniqueIds, EgressRule, Applied, TablesAgree;
    forall e | e in l ensures EntryMatches(e, key, 2) <==> e.tableId / 256 == p.egPort && e.tableId % 256 == vlan {
      assert Justified(s.vlans, e);
      RuleMatchesIff(e.tableId / 256, e.tableId % 256, IsUntagged(s.vlans, e.tableId % 256, e.tableId / 256), key);
    }
    if p.egPort < 32 {
      EntryAt(s.vlans, l, vlan, p.egPort);
      if IsMember(s.vlans, vlan, p.egPort) { RuleActs(p, s.vlans); }
    }
  }

  /** The entry of a port's id, if there is one, is the one the bits call for. */
  lemma EntryAt(v: VlanDb, l: seq<TcamEntry>, vlan: VlanId, port: Port)
    requires EntriesSound(v, l)
    ensures Has(l, EgressEntry(port, vlan)) <==>
      exists e :: e in l && e.tableId / 256 == port && e.tableId % 256 == vlan
    ensures Has(l, EgressEntry(port, vlan)) ==> IsMember(v, vlan, port)
    ensures forall e :: e in l && e.tableId / 256 == port && e.tableId % 256 == vlan ==>
      e == EgressRule(port, vlan, IsUntagged(v, vlan, port))
  {
    hide EgressRule, UniqueIds;
    forall e | e in l
      ensures e.tableId == EgressEntry(port, vlan) <==> e.tableId / 256 == port && e.tableId % 256 == vlan
    {
      IdsApart(port, vlan, e.tableId);
    }
    forall i | 0 <= i < |l| ensures l[i] in l {}
  }

  /** A packet at stage 6 has its tag stripped, kept or left alone exactly as the bits of its VLAN and output port say.
      */
  lemma StageSixActs(s: VlanState, p: Phv)
    requires VlanInv(s)
    ensures Step(s.d, p, EGRESS_STAGE) == EgressOutcome(s.vlans, p)
  {
    StageSixActsOnEntries(s, p);
    var vlan: VlanId := p.vlanId % 256;
    if p.egPort < 32 && IsMember(s.vlans, vlan, p.egPort) {
      MemberHasEntry(s.vlans, LiveOf(s.d, EGRESS_STAGE), vlan, p.egPort);
    }
    hide Step, TablesAgree, EntriesAgree, LiveOf, Has;
  }

  // ----- the other stages

  ghost predicate SameOthers(d: seq<Rec>, d': seq<Rec>) {
    forall stage: uint8 :: stage != EGRESS_STAGE ==> LiveOf(d', stage) == LiveOf(d, stage)
  }

  lemma {:induction false} PortsDeletedOthers(d: Db, member: Bitmap, vlan: VlanId, n: nat)
    requires n <= 32
    ensures SameOthers(d, PortsDeleted(d, member, vlan, n))
  {
    hide Delete, LiveOf;
    if n > 0 {
      PortsDeletedOthers(d, member, vlan, n - 1);
      DeleteOtherStages(PortsDeleted(d, member, vlan, n - 1), EGRESS_STAGE, EgressEntry(n - 1, vlan));
    }
  }

  /** No VLAN call touches another stage, or the DSCP mirror. */
  predicate OnlyVlans(c: Mirrors, c': Mirrors) { c' == c.(member := c'.member, untagged := c'.untagged) }

  lemma CallsStayInStage(s: VlanState, vlan: uint16, port: uint8, tagged: bool)
    requires Sized(s.csr)
    ensures SameOthers(s.d, DeleteVlan(s, vlan).1.d) && OnlyVlans(s.csr, DeleteVlan(s, vlan).1.csr)
    ensures SameOthers(s.d, PortAdd(s, vlan, port, tagged).1.d)
      && OnlyVlans(s.csr, PortAdd(s, vlan, port, tagged).1.csr)
    ensures SameOthers(s.d, PortRemove(s, vlan, port).1.d) && OnlyVlans(s.csr, PortRemove(s, vlan, port).1.csr)
  {
    hide Insert, Delete, LiveOf, PortsDeleted;
    if 0 < vlan <= 255 {
      PortsDeletedOthers(s.d, s.vlans[vlan].member, vlan, 32);
      if port < 32 {
        InsertOtherStages(s.d, EgressRule(port, vlan, !tagged));
        DeleteOtherStages(s.d, EGRESS_STAGE, EgressEntry(port, vlan));
      }
    }
  }

  // ----- what the calls achieve

  /** Every port of every VLAN has the bits it had, one port of one VLAN apart. */
  ghost predicate OnlyPort(v: VlanDb, v': VlanDb, vlan: VlanId, port: Port) {
    && (forall i: VlanId :: v'[i].valid == v[i].valid)
    && forall i: VlanId, p: Port :: i != vlan || p != port ==>
        IsMember(v', i, p) == IsMember(v, i, p) && IsUntagged(v', i, p) == IsUntagged(v, i, p)
  }

  ghost predicate OnlyVlan(v: VlanDb, v': VlanDb, vlan: VlanId) { forall i: VlanId :: i != vlan ==> v'[i] == v[i] }

  predicate Exists(v: VlanDb, vlan: uint16) { 1 <= vlan <= 255 && v[vlan].valid }

  /** A VLAN from 1 to 255 exists afterwards, and is new without a member; no other one changes, nor any entry. */
  lemma CreateMeans(s: VlanState, vlan: uint16)
    requires Sized(s.csr)
    ensures var (code, t) := Create(s, vlan);
      && t.d == s.d && code == (if 1 <= vlan <= 255 then HalOk else HalInval)
      && (code == HalOk && !Exists(s.vlans, vlan) ==>
        && OnlyVlan(s.vlans, t.vlans, vlan) && Exists(t.vlans, vlan)
        && forall p: Port :: !IsMember(t.vlans, vlan, p) && !IsUntagged(t.vlans, vlan, p))
      && (code == HalInval || Exists(s.vlans, vlan) ==> t == s)
  {
  }

  /** The VLAN is gone with all its members, if it existed, and otherwise nothing happens. */
  lemma DeleteMeans(s: VlanState, vlan: uint16)
    requires Sized(s.csr)
    ensures var (code, t) := DeleteVlan(s, vlan);
      if Exists(s.vlans, vlan) then
        && code == HalOk && OnlyVlan(s.vlans, t.vlans, vlan) && !Exists(t.vlans, vlan)
        && forall p: Port :: !IsMember(t.vlans, vlan, p) && !IsUntagged(t.vlans, vlan, p)
      else code == HalInval && t == s
  {
    hide PortsDeleted;
  }

  /** The port is a member of the VLAN afterwards, and untagged if and only if it was not added as tagged. */
  lemma PortAddMeans(s: VlanState, vlan: uint16, port: uint8, tagged: bool)
    requires Sized(s.csr)
    ensures var (code, t) := PortAdd(s, vlan, port, tagged);
      if Exists(s.vlans, vlan) && port < 32 then
        && code == HalOk && OnlyPort(s.vlans, t.vlans, vlan, port)
        && IsMember(t.vlans, vlan, port) && (IsUntagged(t.vlans, vlan, port) <==> !tagged)
      else code == HalInval && t == s
  {
    hide Insert, EgressRule;
  }

  /** The port is no member afterwards. */
  lemma PortRemoveMeans(s: VlanState, vlan: uint16, port: uint8)
    requires Sized(s.csr)
    ensures var (code, t) := PortRemove(s, vlan, port);
      if Exists(s.vlans, vlan) && port < 32 then
        && code == HalOk && OnlyPort(s.vlans, t.vlans, vlan, port)
        && !IsMember(t.vlans, vlan, port) && !IsUntagged(t.vlans, vlan, port)
      else code == HalInval && t == s
  {
    hide Delete;
  }

  /** A packet of a VLAN leaves by a port added as untagged with its tag stripped, its two bytes zero, and by a port
      added as tagged with its tag kept. */
  lemma PortAddTakesEffect(s: VlanState, vlan: VlanId, port: Port, tagged: bool, p: Phv)
    requires VlanInv(s) && Exists(s.vlans, vlan) && HasRoomFor(s, vlan, port)
    requires p.egPort == port && p.vlanId % 256 == vlan
    ensures Step(PortAdd(s, vlan, port, tagged).1.d, p, EGRESS_STAGE) ==
      if tagged then p.(vlanAction := ActKeep) else p.(vlanAction := ActStrip, hdr := p.hdr[14 := 0][15 := 0])
  {
    hide VlanInv, Step, HasRoomFor, PortAdd;
    InvSized(s);
    PortAddKeepsInvIff(s, vlan, port, tagged);
    PortAddMeans(s, vlan, port, tagged);
    StageSixActs(PortAdd(s, vlan, port, tagged).1, p);
  }

  lemma InvSized(s: VlanState)
    requires VlanInv(s)
    ensures Sized(s.csr)
  {
  }

  /** And when the port is removed, or the VLAN is deleted, such packets are left alone again. */
  lemma RemovalTakesEffect(s: VlanState, vlan: VlanId, port: Port, p: Phv)
    requires VlanInv(s) && Exists(s.vlans, vlan) && p.egPort == port && p.vlanId % 256 == vlan
    ensures Sized(s.csr)
    ensures Step(PortRemove(s, vlan, port).1.d, p, EGRESS_STAGE) == p
    ensures Step(DeleteVlan(s, vlan).1.d, p, EGRESS_STAGE) == p
  {
    hide VlanInv, Step, PortRemove, DeleteVlan;
    InvSized(s);
    PortRemoveKeepsInv(s, vlan, port);
    PortRemoveMeans(s, vlan, port);
    StageSixActs(PortRemove(s, vlan, port).1, p);
    DeleteKeepsInv(s, vlan);
    DeleteMeans(s, vlan);
    StageSixActs(DeleteVlan(s, vlan).1, p);
  }
}
