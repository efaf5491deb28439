/** The ingress side of the VLAN module (sw/firmware/vlan.c): two table entries of stage 4 for each configured port, one
    for untagged frames and one for tagged frames. The first of them matches every frame of its port. */
module VlanIngress {
  import opened Words
  import opened Bits
  import opened Hal
  import opened SimHal
  import opened StageLists
  import opened PktModel
  import opened Csr

  const INGRESS_STAGE: uint8 := 4
  const VLAN_DEFAULT_ID: uint16 := 1
  const VLAN_MAX_ID: nat := 255
  const MODE_ACCESS: uint8 := 0
  const MODE_TRUNK: uint8 := 1

  type Port = p: int | 0 <= p < 32

  datatype PortCfg = PortCfg(pvid: uint16, mode: uint8)

  type Cfgs = c: seq<PortCfg> | |c| == 32 witness seq(32, _ => PortCfg(1, 0))

  function VlanParams(vlan: uint16): ParamBytes { [vlan / 256, vlan % 256] + seq(10, _ => 0) }

  function IngressRule(port: Port, tci: uint16, mask: uint16, action: uint16, vlan: uint16, id: uint16): TcamEntry {
    TcamEntry(TcamKey(Pad([port, tci / 256, tci % 256]), 3), TcamKey(Pad([0xFF, mask / 256, mask % 256]), 3),
              action, VlanParams(vlan), INGRESS_STAGE, id)
  }

  /** The entry for untagged frames. */
  function UntaggedRule(port: Port, c: PortCfg): TcamEntry {
    IngressRule(port, 0, 0, ACTION_VLAN_ASSIGN_PVID, c.pvid, port * 2)
  }

  /** The entry for tagged frames. */
  function TaggedRule(port: Port, c: PortCfg): TcamEntry {
    if c.mode == MODE_ACCESS then
      IngressRule(port, c.pvid % 4096, 0x0FFF, ACTION_VLAN_ACCEPT_TAGGED, c.pvid, port * 2 + 1)
    else IngressRule(port, 0, 0, ACTION_VLAN_ACCEPT_TAGGED, 0, port * 2 + 1)
  }

  function Installed(d: Db, port: Port, c: PortCfg): Db {
    Insert(Insert(d, UntaggedRule(port, c)).1, TaggedRule(port, c)).1
  }

  /** The configuration of the ports, the register mirrors and the table store. */
  datatype PortState = PortState(cfgs: Cfgs, csr: Mirrors, d: Db)

  function SetPvid(s: PortState, port: uint8, vlan: uint16): (HalCode, PortState)
    requires Sized(s.csr)
  {
    if port >= 32 || vlan == 0 || vlan > VLAN_MAX_ID then (HalInval, s)
    else
      var c := s.cfgs[port].(pvid := vlan);
      (HalOk, PortState(s.cfgs[port := c], s.csr.(pvid := s.csr.pvid[port := vlan]), Installed(s.d, port, c)))
  }

  function SetMode(s: PortState, port: uint8, mode: uint8): (HalCode, PortState)
    requires Sized(s.csr)
  {
    if port >= 32 || (mode != MODE_ACCESS && mode != MODE_TRUNK) then (HalInval, s)
    else
      var c := s.cfgs[port].(mode := mode);
      (HalOk, PortState(s.cfgs[port := c], s.csr.(mode := s.csr.mode[port := mode]), Installed(s.d, port, c)))
  }

  function DefaultCfgs(): Cfgs { seq(32, _ => PortCfg(VLAN_DEFAULT_ID, MODE_ACCESS)) }

  function DefaultPvids(): seq<uint16> { seq(32, _ => VLAN_DEFAULT_ID) }

  function DefaultModes(): seq<uint8> { seq(32, _ => MODE_ACCESS) }

  function PortsReset(m: Mirrors): Mirrors { m.(pvid := DefaultPvids(), mode := DefaultModes()) }

  /** The registers hold the VLAN and the mode of every port. */
  predicate PortMirrorsAgree(cfgs: Cfgs, m: Mirrors) {
    Sized(m) && forall p: Port :: m.pvid[p] == cfgs[p].pvid && m.mode[p] == cfgs[p].mode
  }

  class Ports {
    const hal: Store
    const csr: CsrFile
    const cfg: array<PortCfg>

    ghost predicate Valid()
      reads hal
    {
      hal.Valid() && csr.Valid() && cfg.Length == 32
    }

    ghost function Value(): PortState
      reads hal, hal.db, csr.vlanMember, csr.vlanUntagged, csr.qosDscpMap, csr.vlanPvid, csr.vlanMode, cfg
      requires Valid()
    {
      PortState(cfg[..], csr.Value(), hal.Value())
    }

    constructor (store: Store, regs: CsrFile)
      requires store.Valid() && regs.Valid()
      ensures Valid() && hal == store && csr == regs && fresh(cfg)
      ensures cfg[..] == seq(32, _ => PortCfg(0, 0))
    {
      hal, csr := store, regs;
      cfg := new PortCfg[32](_ => PortCfg(0, 0));
    }

    /** The port loop of the VLAN initialisation: every port in access mode on VLAN 1, without entries yet. */
    method InitPorts()
      requires Valid()
      modifies cfg, csr.vlanPvid, csr.vlanMode
      ensures Valid() && cfg[..] == DefaultCfgs()
      ensures csr.Value() == PortsReset(old(csr.Value()))
    {
      for p := 0 to 32
        invariant Valid() && cfg[..p] == DefaultCfgs()[..p]
        invariant csr.vlanPvid[..p] == DefaultPvids()[..p] && csr.vlanMode[..p] == DefaultModes()[..p]
        invariant csr.Value() == old(csr.Value()).(pvid := csr.vlanPvid[..], mode := csr.vlanMode[..])
      {
        cfg[p] := PortCfg(VLAN_DEFAULT_ID, MODE_ACCESS);
        var r0 := csr.HalVlanPvidSet(p, VLAN_DEFAULT_ID);
        var r1 := csr.HalVlanModeSet(p, MODE_ACCESS);
      }
    }

    method VlanInstallPortRules(port: Port)
      requires Valid()
      modifies hal`n, hal.db
      ensures Valid() && hal.Value() == Installed(old(hal.Value()), port, cfg[port])
    {
      hide Insert, IngressRule;
      var c := cfg[port];
      var r0 := hal.HalTcamInsert(IngressRule(port, 0, 0, ACTION_VLAN_ASSIGN_PVID, c.pvid, port * 2));
      if c.mode == MODE_ACCESS {
        var r1 := hal.HalTcamInsert(
          IngressRule(port, c.pvid % 4096, 0x0FFF, ACTION_VLAN_ACCEPT_TAGGED, c.pvid, port * 2 + 1));
      } else {
        var r1 := hal.HalTcamInsert(IngressRule(port, 0, 0, ACTION_VLAN_ACCEPT_TAGGED, 0, port * 2 + 1));
      }
    }

    method VlanPortSetPvid(port: uint8, vlan: uint16) returns (code: HalCode)
      requires Valid()
      modifies cfg, csr.vlanPvid, hal`n, hal.db
      ensures Valid() && (code, Value()) == SetPvid(old(Value()), port, vlan)
      ensures code == if port >= 32 || vlan == 0 || vlan > VLAN_MAX_ID then HalInval else HalOk
      ensures code == HalInval ==>
        cfg[..] == old(cfg[..]) && csr.Value() == old(csr.Value()) && hal.Value() == old(hal.Value())
      ensures code == HalOk ==>
        && cfg[..] == old(cfg[..])[port := old(cfg[port]).(pvid := vlan)]
        && csr.Value() == old(csr.Value()).(pvid := old(csr.vlanPvid[..])[port := vlan])
        && hal.Value() == Installed(old(hal.Value()), port, cfg[port])
    {
      hide Installed;
      if port >= 32 || vlan == 0 || vlan > VLAN_MAX_ID { return HalInval; }
      cfg[port] := cfg[port].(pvid := vlan);
      var r := csr.HalVlanPvidSet(port, vlan);
      VlanInstallPortRules(port);
      return HalOk;
    }

    method VlanPortSetMode(port: uint8, mode: uint8) returns (code: HalCode)
      requires Valid()
      modifies cfg, csr.vlanMode, hal`n, hal.db
      ensures Valid() && (code, Value()) == SetMode(old(Value()), port, mode)
      ensures code == if port >= 32 || (mode != MODE_ACCESS && mode != MODE_TRUNK) then HalInval else HalOk
      ensures code == HalInval ==>
        cfg[..] == old(cfg[..]) && csr.Value() == old(csr.Value()) && hal.Value() == old(hal.Value())
      ensures code == HalOk ==>
        && cfg[..] == old(cfg[..])[port := old(cfg[port]).(mode := mode)]
        && csr.Value() == old(csr.Value()).(mode := old(csr.vlanMode[..])[port := mode])
        && hal.Value() == Installed(old(hal.Value()), port, cfg[port])
    {
      hide Installed;
      if port >= 32 || (mode != MODE_ACCESS && mode != MODE_TRUNK) { return HalInval; }
      cfg[port] := cfg[port].(mode := mode);
      var r := csr.HalVlanModeSet(port, mode);
      VlanInstallPortRules(port);
      return HalOk;
    }
  }

  // ----- the entries of stage 4

  function RuleOf(cfgs: Cfgs, id: uint16): TcamEntry
    requires id < 64
  {
    if id % 2 == 0 then UntaggedRule(id / 2, cfgs[id / 2]) else TaggedRule(id / 2, cfgs[id / 2])
  }

  /** An entry for tagged frames always comes after the entry for untagged frames of its port. */
  ghost predicate Shadowed(l: seq<TcamEntry>) {
    forall i :: 0 <= i < |l| && l[i].tableId % 2 == 1 ==> EarlierIn(l, i)
  }

  predicate EarlierIn(l: seq<TcamEntry>, i: nat)
    requires i < |l|
  {
    exists j :: 0 <= j < i && l[j].tableId == l[i].tableId - 1
  }

  /** Every entry is the one its port configuration calls for, `stale` ones excepted. */
  ghost predicate Current(cfgs: Cfgs, l: seq<TcamEntry>, stale: int) {
    UniqueIds(l) && forall e :: e in l ==> e.tableId < 64 && (e.tableId != stale ==> e == RuleOf(cfgs, e.tableId))
  }

  ghost predicate IngressInv(cfgs: Cfgs, l: seq<TcamEntry>) { Current(cfgs, l, -1) && Shadowed(l) }

  function Ids(l: seq<TcamEntry>): (r: seq<uint16>)
    ensures |r| == |l| && forall i :: 0 <= i < |l| ==> r[i] == l[i].tableId
  {
    if l == [] then [] else [l[0].tableId] + Ids(l[1..])
  }

  lemma {:induction false} UpsertedIds(l: seq<TcamEntry>, e: TcamEntry)
    ensures Ids(Upserted(l, e)) == if Has(l, e.tableId) then Ids(l) else Ids(l) + [e.tableId]
  {
    if l != [] {
      HasHeadOrTail(l, e.tableId);
      hide Has;
      if l[0].tableId != e.tableId {
        UpsertedIds(l[1..], e);
        assert Upserted(l, e)[1..] == Upserted(l[1..], e);
      } else {
        assert Upserted(l, e)[1..] == l[1..];
      }
    }
  }

  lemma UpsertShadowed(l: seq<TcamEntry>, e: TcamEntry)
    requires Shadowed(l) && (e.tableId % 2 == 1 ==> Has(l, e.tableId - 1))
    ensures Shadowed(Upserted(l, e))
  {
    UpsertedIds(l, e);
    hide Upserted, Ids;
    var u := Upserted(l, e);
    assert |Ids(u)| == |u| && |Ids(l)| == |l|;
    assert forall i :: 0 <= i < |l| ==> Ids(u)[i] == Ids(l)[i];
    forall i | 0 <= i < |u| && u[i].tableId % 2 == 1 ensures EarlierIn(u, i) {
      if i < |l| {
        assert EarlierIn(l, i);
        var j :| 0 <= j < i && l[j].tableId == l[i].tableId - 1;
        assert u[j].tableId == u[i].tableId - 1;
      } else {
        var j :| 0 <= j < |l| && l[j].tableId == e.tableId - 1;
        assert u[j].tableId == u[i].tableId - 1;
      }
    }
  }

  lemma UntaggedCurrent(cfgs: Cfgs, l: seq<TcamEntry>, port: Port, c: PortCfg)
    requires Current(cfgs, l, -1)
    ensures Current(cfgs[port := c], Upserted(l, UntaggedRule(port, c)), port * 2 + 1)
  {
    UpsertedMembers(l, UntaggedRule(port, c));
    hide IngressRule, UniqueIds, Upserted;
    assert UntaggedRule(port, c).tableId == port * 2 by { RuleIds(port, c); }
  }

  lemma TaggedCurrent(cfgs: Cfgs, l: seq<TcamEntry>, port: Port)
    requires Current(cfgs, l, port * 2 + 1)
    ensures Current(cfgs, Upserted(l, TaggedRule(port, cfgs[port])), -1)
  {
    UpsertedMembers(l, TaggedRule(port, cfgs[port]));
    hide IngressRule, UniqueIds, Upserted;
    assert TaggedRule(port, cfgs[port]).tableId == port * 2 + 1 by { RuleIds(port, cfgs[port]); }
  }

  lemma RuleIds(port: Port, c: PortCfg)
    ensures UntaggedRule(port, c).tableId == port * 2 && UntaggedRule(port, c).stage == INGRESS_STAGE
    ensures TaggedRule(port, c).tableId == port * 2 + 1 && TaggedRule(port, c).stage == INGRESS_STAGE
  {
  }

  lemma TaggedComesAfter(l: seq<TcamEntry>, i: nat)
    requires Shadowed(l) && i < |l| && l[i].tableId % 2 == 1
    ensures Has(l, l[i].tableId - 1)
  {
    assert EarlierIn(l, i);
  }

  lemma MissingPort(cfgs: Cfgs, l: seq<TcamEntry>, port: Port, c: PortCfg)
    requires Current(cfgs, l, -1) && Shadowed(l) && !Has(l, port * 2)
    ensures !Has(l, port * 2 + 1) && Current(cfgs[port := c], l, -1)
  {
    forall i | 0 <= i < |l| ensures l[i].tableId / 2 != port {
      if l[i].tableId % 2 == 1 { TaggedComesAfter(l, i); }
    }
    hide UntaggedRule, TaggedRule, Has, Shadowed, UniqueIds;
    forall e | e in l ensures RuleOf(cfgs[port := c], e.tableId) == RuleOf(cfgs, e.tableId) {
      var i :| 0 <= i < |l| && l[i] == e;
    }
  }

  lemma StaleIsMissing(cfgs: Cfgs, l: seq<TcamEntry>, stale: uint16)
    requires Current(cfgs, l, stale) && !Has(l, stale)
    ensures Current(cfgs, l, -1)
  {
    hide RuleOf, UniqueIds;
    forall e | e in l ensures e.tableId != stale {
      var i :| 0 <= i < |l| && l[i] == e;
    }
  }

  /** Installing a port's two entries keeps the order and the contents, whether or not the store had room for them. */
  lemma InstallKeepsInv(cfgs: Cfgs, d: Db, port: Port, c: PortCfg)
    requires IngressInv(cfgs, LiveOf(d, INGRESS_STAGE))
    ensures IngressInv(cfgs[port := c], LiveOf(Installed(d, port, c), INGRESS_STAGE))
  {
    RuleIds(port, c);
    var u, t := UntaggedRule(port, c), TaggedRule(port, c);
    var d1 := Insert(d, u).1;
    InsertPerStage(d, u, INGRESS_STAGE);
    var l, cfgs' := LiveOf(d, INGRESS_STAGE), cfgs[port := c];
    hide UntaggedRule, TaggedRule, LiveOf, Upserted, Current, Shadowed, Has, Insert;
    if Insert(d, u).0 == HalOk {
      UntaggedCurrent(cfgs, l, port, c);
      UpsertShadowed(l, u);
      UpsertedHas(l, u);
      SecondEntry(cfgs', d1, port);
    } else {
      MissingPort(cfgs, l, port, c);
      StillRefused(d, u, t);
    }
  }

  lemma SecondEntry(cfgs: Cfgs, d: Db, port: Port)
    requires var l := LiveOf(d, INGRESS_STAGE); Current(cfgs, l, port * 2 + 1) && Shadowed(l) && Has(l, port * 2)
    ensures IngressInv(cfgs, LiveOf(Insert(d, TaggedRule(port, cfgs[port])).1, INGRESS_STAGE))
  {
    var t, l := TaggedRule(port, cfgs[port]), LiveOf(d, INGRESS_STAGE);
    RuleIds(port, cfgs[port]);
    InsertPerStage(d, t, INGRESS_STAGE);
    hide UntaggedRule, TaggedRule, LiveOf, Upserted, Current, Shadowed, Has, Insert;
    if Insert(d, t).0 == HalOk {
      TaggedCurrent(cfgs, l, port);
      UpsertShadowed(l, t);
    } else {
      StaleIsMissing(cfgs, l, port * 2 + 1);
    }
  }

  lemma UpsertedHas(l: seq<TcamEntry>, e: TcamEntry)
    ensures Has(Upserted(l, e), e.tableId)
  {
    UpsertedIds(l, e);
    var u := Upserted(l, e);
    hide Upserted, Ids;
    assert |Ids(u)| == |u| && |Ids(l)| == |l|;
    if Has(l, e.tableId) {
      var i :| 0 <= i < |l| && l[i].tableId == e.tableId;
      assert u[i].tableId == Ids(u)[i] == Ids(l)[i];
    } else {
      assert u[|l|].tableId == Ids(u)[|l|];
    }
  }

  lemma StillRefused(d: Db, u: TcamEntry, t: TcamEntry)
    requires Insert(d, u).0 != HalOk && u.stage == t.stage == INGRESS_STAGE && !Has(LiveOf(d, INGRESS_STAGE), t.tableId)
    ensures Insert(Insert(d, u).1, t).1 == d
  {
    InsertPerStage(d, u, INGRESS_STAGE);
    FindIffHas(d, INGRESS_STAGE, t.tableId);
    hide Find, LiveOf, Has;
  }

  // ----- what a frame experiences

  lemma UntaggedMatches(port: Port, c: PortCfg, key: KeyBytes)
    ensures EntryMatches(UntaggedRule(port, c), key, 3) <==> key[0] == port
  {
    var e := UntaggedRule(port, c);
    assert e.mask.bytes[0] == 0xFF && e.mask.bytes[1] == 0 && e.mask.bytes[2] == 0 && e.key.bytes[0] == port
      && e.key.len == 3;
    Byte8();
    AndOnes(key[0], 8);
    AndOnes(port, 8);
    AndZero(key[1], 8);
    AndZero(key[2], 8);
    AndZero(e.key.bytes[1], 8);
    AndZero(e.key.bytes[2], 8);
    hide And, Pow2, UntaggedRule;
    assert EntryMatches(e, key, 3) <==> ByteMatches(e, key, 0) && ByteMatches(e, key, 1) && ByteMatches(e, key, 2);
  }

  lemma TaggedNeedsPort(port: Port, c: PortCfg, key: KeyBytes)
    requires EntryMatches(TaggedRule(port, c), key, 3)
    ensures key[0] == port
  {
    var e := TaggedRule(port, c);
    assert e.mask.bytes[0] == 0xFF && e.key.bytes[0] == port && e.key.len == 3;
    Byte8();
    AndOnes(key[0], 8);
    AndOnes(port, 8);
    hide And, Pow2, TaggedRule;
    assert ByteMatches(e, key, 0);
  }

  lemma UntaggedActs(p: Phv, port: Port, c: PortCfg)
    ensures Applied(p, UntaggedRule(port, c)) == p.(vlanId := c.pvid)
  {
    hide Pad;
  }

  lemma OnlyOwnPortMatches(cfgs: Cfgs, l: seq<TcamEntry>, i: nat, key: KeyBytes)
    requires IngressInv(cfgs, l) && i < |l| && EntryMatches(l[i], key, 3)
    ensures l[i].tableId / 2 == key[0]
  {
    var e := l[i];
    assert e in l;
    if e.tableId % 2 == 0 {
      UntaggedMatches(e.tableId / 2, cfgs[e.tableId / 2], key);
    } else {
      TaggedNeedsPort(e.tableId / 2, cfgs[e.tableId / 2], key);
    }
    hide EntryMatches, UntaggedRule, TaggedRule, UniqueIds, Shadowed;
  }

  /** The entry for tagged frames is never the first match: any frame of a port that has entries is assigned the port's
      own VLAN, in access and in trunk mode, whatever tag it carries; a frame of any other port is left alone. */
  lemma TagIsNeverRead(cfgs: Cfgs, d: seq<Rec>, p: Phv)
    requires IngressInv(cfgs, LiveOf(d, INGRESS_STAGE))
    ensures Step(d, p, INGRESS_STAGE) ==
      if p.igPort < 32 && Has(LiveOf(d, INGRESS_STAGE), p.igPort * 2) then p.(vlanId := cfgs[p.igPort].pvid) else p
  {
    var key := Pad(KeyBytesOf(p, INGRESS_STAGE));
    assert key[0] == p.igPort && |KeyBytesOf(p, INGRESS_STAGE)| == 3;
    var l := LiveOf(d, INGRESS_STAGE);
    LookupIsFirstMatch(d, INGRESS_STAGE, key, 3);
    hide LiveOf, Lookup, Pad, KeyBytesOf;
    FirstIsUntagged(cfgs, l, key);
    if p.igPort < 32 { UntaggedActs(p, p.igPort, cfgs[p.igPort]); }
    hide Applied, UntaggedRule, FirstMatch, IngressInv, Has;
  }

  lemma FirstIsUntagged(cfgs: Cfgs, l: seq<TcamEntry>, key: KeyBytes)
    requires IngressInv(cfgs, l)
    ensures FirstMatch(l, key, 3) ==
      if key[0] < 32 && Has(l, key[0] * 2) then Some(UntaggedRule(key[0], cfgs[key[0]])) else None
  {
    FirstMatchAt(l, key, 3);
    FirstMatchIsMember(l, key, 3);
    var m := FirstMatch(l, key, 3);
    hide FirstMatch, EntryMatches, UntaggedRule, IngressInv;
    if m.Some? {
      var i: nat :| 0 <= i < |l| && l[i] == m.value && NoneBefore(l, i, key, 3);
      WinnerIsUntagged(cfgs, l, i, key);
    } else if key[0] < 32 && Has(l, key[0] * 2) {
      UntaggedWouldMatch(cfgs, l, key);
    }
  }

  lemma UntaggedEntryMatches(cfgs: Cfgs, l: seq<TcamEntry>, j: nat, key: KeyBytes)
    requires Current(cfgs, l, -1) && j < |l| && key[0] < 32 && l[j].tableId == key[0] * 2
    ensures l[j] == UntaggedRule(key[0], cfgs[key[0]]) && EntryMatches(l[j], key, 3)
  {
    hide EntryMatches, UntaggedRule, TaggedRule, UniqueIds;
    assert l[j] in l;
    UntaggedMatches(key[0], cfgs[key[0]], key);
  }

  lemma EarlierIndex(l: seq<TcamEntry>, i: nat) returns (j: nat)
    requires Shadowed(l) && i < |l| && l[i].tableId % 2 == 1
    ensures j < i && l[j].tableId == l[i].tableId - 1
  {
    assert EarlierIn(l, i);
    j :| 0 <= j < i && l[j].tableId == l[i].tableId - 1;
  }

  lemma WinnerIsEven(l: seq<TcamEntry>, i: nat, key: KeyBytes)
    requires Shadowed(l) && i < |l| && NoneBefore(l, i, key, 3) && l[i].tableId / 2 == key[0] < 32
    requires forall j :: 0 <= j < |l| && l[j].tableId == key[0] * 2 ==> EntryMatches(l[j], key, 3)
    ensures l[i].tableId == key[0] * 2
  {
    hide Shadowed, EntryMatches;
    if l[i].tableId % 2 == 1 { var j := EarlierIndex(l, i); }
  }

  lemma WinnerIsUntagged(cfgs: Cfgs, l: seq<TcamEntry>, i: nat, key: KeyBytes)
    requires IngressInv(cfgs, l) && i < |l| && EntryMatches(l[i], key, 3) && NoneBefore(l, i, key, 3)
    ensures key[0] < 32 && Has(l, key[0] * 2) && l[i] == UntaggedRule(key[0], cfgs[key[0]])
  {
    OnlyOwnPortMatches(cfgs, l, i, key);
    assert l[i] in l;
    hide EntryMatches, UntaggedRule, RuleOf, UniqueIds, Shadowed, NoneBefore;
    forall j | 0 <= j < |l| && l[j].tableId == key[0] * 2 ensures EntryMatches(l[j], key, 3) {
      UntaggedEntryMatches(cfgs, l, j, key);
    }
    WinnerIsEven(l, i, key);
    UntaggedEntryMatches(cfgs, l, i, key);
  }

  lemma UntaggedWouldMatch(cfgs: Cfgs, l: seq<TcamEntry>, key: KeyBytes)
    requires IngressInv(cfgs, l) && key[0] < 32 && Has(l, key[0] * 2)
    ensures exists j :: 0 <= j < |l| && EntryMatches(l[j], key, 3)
  {
    hide EntryMatches, Current, Shadowed;
    var j :| 0 <= j < |l| && l[j].tableId == key[0] * 2;
    UntaggedEntryMatches(cfgs, l, j, key);
  }

  lemma InstalledOthers(d: Db, port: Port, c: PortCfg)
    ensures forall stage: uint8 :: stage != INGRESS_STAGE ==> LiveOf(Installed(d, port, c), stage) == LiveOf(d, stage)
  {
    RuleIds(port, c);
    hide UntaggedRule, TaggedRule, Insert, LiveOf;
    InsertOtherStages(d, UntaggedRule(port, c));
    InsertOtherStages(Insert(d, UntaggedRule(port, c)).1, TaggedRule(port, c));
  }

  // ----- what the calls achieve

  /** The call sets the VLAN of its port alone; it is refused exactly for a port or a VLAN that does not exist. */
  lemma SetPvidMeans(s: PortState, port: uint8, vlan: uint16)
    requires Sized(s.csr)
    ensures var (code, t) := SetPvid(s, port, vlan);
      && (code == HalOk <==> port < 32 && 1 <= vlan <= 255) && (code != HalOk ==> code == HalInval && t == s)
      && forall p: Port :: t.cfgs[p] == if code == HalOk && p == port then PortCfg(vlan, s.cfgs[p].mode) else s.cfgs[p]
  {
    hide Installed;
  }

  lemma SetModeMeans(s: PortState, port: uint8, mode: uint8)
    requires Sized(s.csr)
    ensures var (code, t) := SetMode(s, port, mode);
      && (code == HalOk <==> port < 32 && mode <= 1) && (code != HalOk ==> code == HalInval && t == s)
      && forall p: Port :: t.cfgs[p] == if code == HalOk && p == port then PortCfg(s.cfgs[p].pvid, mode) else s.cfgs[p]
  {
    hide Installed;
  }

  /** With a free record, or once a port has its entry, its frames are assigned the VLAN just set, tagged or not. */
  lemma PvidTakesEffect(s: PortState, port: uint8, vlan: uint16, p: Phv)
    requires Sized(s.csr) && IngressInv(s.cfgs, LiveOf(s.d, INGRESS_STAGE))
    requires port < 32 && 1 <= vlan <= 255 && p.igPort == port
    requires |s.d| < TCAM_MAX || Has(LiveOf(s.d, INGRESS_STAGE), port * 2)
    ensures Step(SetPvid(s, port, vlan).1.d, p, INGRESS_STAGE) == p.(vlanId := vlan)
  {
    hide Step, IngressInv, LiveOf, Has, Insert;
    var c := s.cfgs[port].(pvid := vlan);
    InstallKeepsInv(s.cfgs, s.d, port, c);
    InstalledHas(s.d, port, c);
    TagIsNeverRead(s.cfgs[port := c], Installed(s.d, port, c), p);
    hide Installed;
  }

  lemma InstalledHas(d: Db, port: Port, c: PortCfg)
    requires |d| < TCAM_MAX || Has(LiveOf(d, INGRESS_STAGE), port * 2)
    ensures Has(LiveOf(Installed(d, port, c), INGRESS_STAGE), port * 2)
  {
    RuleIds(port, c);
    var u, t := UntaggedRule(port, c), TaggedRule(port, c);
    var d1 := Insert(d, u).1;
    FindIffHas(d, INGRESS_STAGE, port * 2);
    assert Insert(d, u).0 == HalOk;
    InsertPerStage(d, u, INGRESS_STAGE);
    UpsertedHas(LiveOf(d, INGRESS_STAGE), u);
    InsertPerStage(d1, t, INGRESS_STAGE);
    UpsertedHasOther(LiveOf(d1, INGRESS_STAGE), t, port * 2);
    hide UntaggedRule, TaggedRule, LiveOf, Upserted, Has, Find;
  }

  lemma UpsertedHasOther(l: seq<TcamEntry>, e: TcamEntry, id: uint16)
    requires Has(l, id)
    ensures Has(Upserted(l, e), id)
  {
    UpsertedIds(l, e);
    var u := Upserted(l, e);
    hide Upserted, Ids;
    assert |Ids(u)| == |u| && |Ids(l)| == |l|;
    var i :| 0 <= i < |l| && l[i].tableId == id;
    assert u[i].tableId == Ids(u)[i] == Ids(l)[i];
  }

  lemma TaggedBytes(port: Port, c: PortCfg)
    requires c.pvid <= 4095
    ensures var e, access := TaggedRule(port, c), c.mode == MODE_ACCESS;
      && e.key.len == 3 && e.mask.bytes[0] == 0xFF && e.key.bytes[0] == port
      && e.mask.bytes[1] == (if access then 0x0F else 0) && e.mask.bytes[2] == (if access then 0xFF else 0)
      && e.key.bytes[1] == (if access then c.pvid / 256 else 0)
        && e.key.bytes[2] == (if access then c.pvid % 256 else 0)
  {
  }

  lemma MaskedBytesAgreeIff(a: uint8, b: uint8)
    ensures And8(a, 0xFF) == And8(b, 0xFF) <==> a == b
    ensures And8(a, 0x0F) == And8(b, 0x0F) <==> a % 16 == b % 16
    ensures And8(a, 0) == And8(b, 0)
  {
    Byte8();
    AndOnes(a, 8);
    AndOnes(b, 8);
    AndZero(a, 8);
    AndZero(b, 8);
    LowFourBits(a);
    LowFourBits(b);
    hide And, Pow2;
  }

  /** What the entry for tagged frames would match if it came first: every frame of its port in trunk mode, and in
      access mode those whose tag names the port's VLAN in its twelve low bits. */
  lemma TaggedMatchesIff(port: Port, c: PortCfg, p: Phv)
    requires c.pvid <= 4095
    ensures var key := KeyBytesOf(p, INGRESS_STAGE);
      |key| == 3 && (EntryMatches(TaggedRule(port, c), Pad(key), 3) <==>
        p.igPort == port && (c.mode == MODE_ACCESS ==>
          p.hdr[14] as int % 16 * 256 + p.hdr[15] as int == c.pvid))
  {
    var key := Pad(KeyBytesOf(p, INGRESS_STAGE));
    assert key[0] == p.igPort && key[1] == p.hdr[14] && key[2] == p.hdr[15];
    hide And8, TaggedRule, EntryMatches, Pad, KeyBytesOf;
    TaggedBytes(port, c);
    var e := TaggedRule(port, c);
    ThreeBytes(e, key);
    SameTwelveBits(c.pvid, p.hdr[14], p.hdr[15]);
    MaskedBytesAgreeIff(key[0], e.key.bytes[0]);
    MaskedBytesAgreeIff(key[1], e.key.bytes[1]);
    MaskedBytesAgreeIff(key[2], e.key.bytes[2]);
  }

  lemma ThreeBytes(e: TcamEntry, key: KeyBytes)
    requires e.key.len == 3
    ensures EntryMatches(e, key, 3) <==> ByteMatches(e, key, 0) && ByteMatches(e, key, 1) && ByteMatches(e, key, 2)
  {
    hide ByteMatches;
  }

  lemma SameTwelveBits(v: uint16, hi: uint8, lo: uint8)
    requires v <= 4095
    ensures hi as int % 16 * 256 + lo as int == v <==> hi % 16 == v / 256 % 16 && lo == v % 256
  {
  }

  lemma AndStep(a: nat, b: nat, bits: nat)
    requires bits > 0 && a < Pow2(bits) && b < Pow2(bits)
    ensures a / 2 < Pow2(bits - 1) && b / 2 < Pow2(bits - 1)
    ensures And(a, b, bits) == 2 * And(a / 2, b / 2, bits - 1) + if a % 2 == 1 && b % 2 == 1 then 1 else 0
  {
  }

  lemma LowFourBits(x: uint8)
    ensures And8(x, 0x0F) == x % 16
  {
    Byte8();
    hide And, Pow2;
    FourLowBits(x);
    AndStep(x, 15, 8);
    AndStep(x / 2, 7, 7);
    AndStep(x / 2 / 2, 3, 6);
    AndStep(x / 2 / 2 / 2, 1, 5);
    AndZero(x / 2 / 2 / 2 / 2, 4);
  }

  lemma FourLowBits(x: nat)
    ensures x % 16 == x % 2 + 2 * (x / 2 % 2) + 4 * (x / 2 / 2 % 2) + 8 * (x / 2 / 2 / 2 % 2)
  {
  }
}
