/** The access lists, the VLANs and the DSCP map over one shared table store: every run of their calls, and what a
    packet then experiences in the pipeline. */
module Firmware {
  import opened Words
  import opened Bits
  import opened Hal
  import opened SimHal
  import opened PktModel
  import opened Csr
  import opened Acl
  import opened Vlan
  import VlanIngress
  import opened Forwarding
  import ArpTable
  import opened Qos

  /** `ready`, `ordered` and `roomy` say what has been so up to now: the DSCP map has been initialised while the store
      had room for its 64 entries; every rule came after the ones it joined; no VLAN entry has been turned away. */
  datatype Fw = Fw(
    acl: AclState, vs: VlanState, ports: VlanIngress.Cfgs, queues: QueueMap, ready: bool, ordered: bool, roomy: bool)

  /** A call of one of the three modules, or an insertion or deletion by a module of another stage. */
  datatype Call =
    | AclAdd(rule: Rule)
    | AclDelete(id: uint16)
    | VlanCreate(vlan: uint16)
    | VlanDelete(vlan: uint16)
    | VlanPortAdd(vlan: uint16, port: uint8, tagged: bool)
    | VlanPortRemove(vlan: uint16, port: uint8)
    | VlanPortSetPvid(port: uint8, vlan: uint16)
    | VlanPortSetMode(port: uint8, mode: uint8)
    | QosInit
    | QosDscpSet(dscp: uint8, queue: uint8)
    | OtherInsert(e: TcamEntry)
    | OtherDelete(stage: uint8, tableId: uint16)

  /** The stages the access lists, the VLANs and the DSCP map install their entries in. */
  predicate Owned(stage: uint8) {
    stage == ACL_STAGE || stage == VlanIngress.INGRESS_STAGE || stage == DSCP_STAGE || stage == EGRESS_STAGE
  }

  function QosPart(f: Fw): QosState { QosState(f.queues, f.vs.csr, f.vs.d) }

  function WithQos(f: Fw, s: QosState): Fw { f.(queues := s.queues, vs := f.vs.(csr := s.csr, d := s.d)) }

  function PortPart(f: Fw): VlanIngress.PortState { VlanIngress.PortState(f.ports, f.vs.csr, f.vs.d) }

  function WithPorts(f: Fw, s: VlanIngress.PortState): Fw { f.(ports := s.cfgs, vs := f.vs.(csr := s.csr, d := s.d)) }

  function Apply(f: Fw, c: Call): Fw
    requires Sized(f.vs.csr)
  {
    match c
    case AclAdd(r) =>
      var a := Add(f.acl, f.vs.d, r);
      f.(acl := a.1, ordered := f.ordered && AddFits(f.acl, f.vs.d), vs := f.vs.(d := a.2))
    case AclDelete(id) =>
      var a := Remove(f.acl, f.vs.d, id);
      f.(acl := a.1, vs := f.vs.(d := a.2))
    case VlanCreate(v) => f.(vs := Create(f.vs, v).1)
    case VlanDelete(v) => f.(vs := DeleteVlan(f.vs, v).1)
    case VlanPortAdd(v, p, tagged) =>
      f.(vs := PortAdd(f.vs, v, p, tagged).1, roomy := f.roomy && (Refuses(f.vs, v, p) || HasRoomFor(f.vs, v, p)))
    case VlanPortRemove(v, p) => f.(vs := PortRemove(f.vs, v, p).1)
    case VlanPortSetPvid(p, v) => WithPorts(f, VlanIngress.SetPvid(PortPart(f), p, v).1)
    case VlanPortSetMode(p, m) => WithPorts(f, VlanIngress.SetMode(PortPart(f), p, m).1)
    case QosInit => WithQos(f, MapInit(QosPart(f))).(ready := f.ready || |f.vs.d| + DSCP_COUNT <= TCAM_MAX)
    case QosDscpSet(d, q) => WithQos(f, MapSet(QosPart(f), d, q).1)
    case OtherInsert(e) => f.(vs := f.vs.(d := Insert(f.vs.d, e).1))
    case OtherDelete(stage, id) => f.(vs := f.vs.(d := Delete(f.vs.d, stage, id).1))
  }

  ghost predicate AclHolds(ordered: bool, s: AclState, l: seq<TcamEntry>) { ordered ==> AclInv(s, l) }

  ghost predicate VlanHolds(roomy: bool, s: VlanState) { VlanSound(s) && (roomy ==> VlanInv(s)) }

  ghost predicate FwInv(f: Fw) {
    && AclHolds(f.ordered, f.acl, LiveOf(f.vs.d, ACL_STAGE))
    && VlanHolds(f.roomy, f.vs)
    && VlanIngress.IngressInv(f.ports, LiveOf(f.vs.d, VlanIngress.INGRESS_STAGE))
    && VlanIngress.PortMirrorsAgree(f.ports, f.vs.csr)
    && RulesUpTo(f.queues, LiveOf(f.vs.d, DSCP_STAGE), if f.ready then DSCP_COUNT else 0)
    && f.vs.csr.dscpMap == f.queues
  }

  /** The other modules keep to their own stages. */
  predicate Allowed(c: Call) {
    match c
    case OtherInsert(e) => !Owned(e.stage)
    case OtherDelete(stage, _) => !Owned(stage)
    case _ => true
  }

  lemma VlanPartKept(roomy: bool, s: VlanState, s': VlanState)
    requires VlanHolds(roomy, s) && s'.vlans == s.vlans && LiveOf(s'.d, EGRESS_STAGE) == LiveOf(s.d, EGRESS_STAGE)
    requires s'.csr.member == s.csr.member && s'.csr.untagged == s.csr.untagged && Sized(s'.csr)
    ensures VlanHolds(roomy, s')
  {
    hide EntriesAgree, EntriesSound, WellKept, LiveOf;
  }

  lemma AclCallKeeps(f: Fw, c: Call)
    requires FwInv(f) && (c.AclAdd? || c.AclDelete?)
    ensures FwInv(Apply(f, c))
  {
    hide AclInv, RulesUpTo, VlanIngress.IngressInv, LiveOf, Add, Remove, AddFits, VlanHolds;
    if c.AclAdd? {
      AddStays(f.acl, f.vs.d, c.rule);
      if f.ordered { AddKeepsInvIff(f.acl, f.vs.d, c.rule); }
    } else {
      RemoveStays(f.acl, f.vs.d, c.id);
      if f.ordered { RemoveKeepsInv(f.acl, f.vs.d, c.id); }
    }
    VlanPartKept(f.roomy, f.vs, Apply(f, c).vs);
  }

  lemma VlansReplaced(f: Fw, s: VlanState, roomy: bool)
    requires FwInv(f) && VlanHolds(roomy, s) && OnlyVlans(f.vs.csr, s.csr) && SameOthers(f.vs.d, s.d)
    ensures FwInv(f.(vs := s, roomy := roomy))
  {
    hide AclHolds, RulesUpTo, VlanIngress.IngressInv, LiveOf;
    SoundSized(s);
    hide VlanHolds, VlanSound;
  }

  lemma VlanCallKeeps(f: Fw, c: Call)
    requires FwInv(f) && (c.VlanCreate? || c.VlanDelete? || c.VlanPortAdd? || c.VlanPortRemove?)
    ensures FwInv(Apply(f, c))
  {
    hide AclHolds, RulesUpTo, VlanIngress.IngressInv, LiveOf, DeleteVlan, PortAdd, PortRemove, HasRoomFor;
    hide VlanInv, VlanSound;
    SoundSized(f.vs);
    match c {
      case VlanCreate(v) =>
        CreateKeepsSound(f.vs, v);
        if f.roomy { CreateKeepsInv(f.vs, v); }
        VlansReplaced(f, Create(f.vs, v).1, f.roomy);
      case VlanDelete(v) =>
        DeleteKeepsSound(f.vs, v);
        if f.roomy { DeleteKeepsInv(f.vs, v); }
        CallsStayInStage(f.vs, v, 0, false);
        VlansReplaced(f, DeleteVlan(f.vs, v).1, f.roomy);
      case VlanPortAdd(v, p, tagged) =>
        PortAddKeeps(f, v, p, tagged);
      case VlanPortRemove(v, p) =>
        PortRemoveKeepsSound(f.vs, v, p);
        if f.roomy { PortRemoveKeepsInv(f.vs, v, p); }
        CallsStayInStage(f.vs, v, p, false);
        VlansReplaced(f, PortRemove(f.vs, v, p).1, f.roomy);
    }
  }

  lemma PortAddKeeps(f: Fw, v: uint16, p: uint8, tagged: bool)
    requires FwInv(f)
    ensures Sized(f.vs.csr) && FwInv(Apply(f, VlanPortAdd(v, p, tagged)))
  {
    hide AclHolds, RulesUpTo, VlanIngress.IngressInv, LiveOf, PortAdd, HasRoomFor, VlanInv, VlanSound;
    SoundSized(f.vs);
    PortAddKeepsSound(f.vs, v, p, tagged);
    CallsStayInStage(f.vs, v, p, tagged);
    var roomy := f.roomy && (Refuses(f.vs, v, p) || HasRoomFor(f.vs, v, p));
    if Refuses(f.vs, v, p) {
      RefusedAdd(f.vs, v, p, tagged);
    } else if f.roomy {
      PortAddKeepsInvIff(f.vs, v, p, tagged);
    }
    VlansReplaced(f, PortAdd(f.vs, v, p, tagged).1, roomy);
  }

  lemma RefusedAdd(s: VlanState, vlan: uint16, port: uint8, tagged: bool)
    requires Sized(s.csr) && Refuses(s, vlan, port)
    ensures PortAdd(s, vlan, port, tagged).1 == s
  {
  }

  function WithQueues(f: Fw, m: QueueMap, d: Db): Fw { WithQos(f, QosState(m, f.vs.csr.(dscpMap := m), d)) }

  lemma QueuesKept(f: Fw, m: QueueMap, d: Db, ready: bool)
    requires FwInv(f) && RulesUpTo(m, LiveOf(d, DSCP_STAGE), if ready then DSCP_COUNT else 0)
    requires forall stage: uint8 :: stage != DSCP_STAGE ==> LiveOf(d, stage) == LiveOf(f.vs.d, stage)
    ensures FwInv(WithQueues(f, m, d).(ready := ready))
  {
    hide AclHolds, RulesUpTo, VlanIngress.IngressInv, LiveOf;
    VlanPartKept(f.roomy, f.vs, WithQueues(f, m, d).vs);
    hide VlanHolds;
  }

  lemma DscpSetKeeps(f: Fw, dscp: uint8, q: uint8)
    requires FwInv(f)
    ensures Sized(f.vs.csr) && FwInv(Apply(f, QosDscpSet(dscp, q)))
  {
    hide AclHolds, VlanHolds, RulesUpTo, VlanIngress.IngressInv, LiveOf, Insert, RuleFor;
    if dscp < 64 && q < QUEUES_PER_PORT {
      var m := f.queues[dscp := q];
      if f.ready { DscpSetKeepsInv(f.vs.d, f.queues, dscp, q); } else { InsertKeepsIds(f.vs.d, f.queues, m, dscp, q); }
      RuleStage(dscp, q);
      InsertOtherStages(f.vs.d, RuleFor(dscp, q));
      QueuesKept(f, m, Insert(f.vs.d, RuleFor(dscp, q)).1, f.ready);
    }
  }

  lemma DscpInitKeeps(f: Fw)
    requires FwInv(f)
    ensures Sized(f.vs.csr) && FwInv(Apply(f, QosInit))
  {
    hide AclHolds, VlanHolds, RulesUpTo, VlanIngress.IngressInv, LiveOf, Insert, DefaultMap, RulesInstalled, Mixed;
    var d, m := f.vs.d, DefaultMap();
    RulesBelowZero(f.queues, LiveOf(d, DSCP_STAGE), f.ready);
    InitKeepsIds(d, f.queues, m, DSCP_COUNT);
    if f.ready {
      ReinitKeepsInv(d, f.queues, m, DSCP_COUNT);
      MixedAll(f.queues, m);
    } else if |d| + DSCP_COUNT <= TCAM_MAX {
      RulesBelowAny(f.queues, m, LiveOf(d, DSCP_STAGE));
      InitEstablishes(d, m, DSCP_COUNT);
    }
    QueuesKept(f, m, RulesInstalled(d, m, DSCP_COUNT), f.ready || |d| + DSCP_COUNT <= TCAM_MAX);
  }

  lemma RulesBelowZero(m: QueueMap, l: seq<TcamEntry>, ready: bool)
    requires RulesUpTo(m, l, if ready then DSCP_COUNT else 0)
    ensures RulesUpTo(m, l, 0)
  {
  }

  lemma RulesBelowAny(m: QueueMap, m': QueueMap, l: seq<TcamEntry>)
    requires RulesUpTo(m, l, 0)
    ensures RulesUpTo(m', l, 0)
  {
  }

  lemma MixedAll(m: QueueMap, m': QueueMap)
    ensures Mixed(m, m', DSCP_COUNT) == m'
  {
  }

  /** A change of a port's configuration and its mirror, followed by the installation of its two entries. */
  function Configured(f: Fw, port: VlanIngress.Port, c: VlanIngress.PortCfg, csr: Mirrors): Fw {
    WithPorts(f, VlanIngress.PortState(f.ports[port := c], csr, VlanIngress.Installed(f.vs.d, port, c)))
  }

  lemma PortCallKeeps(f: Fw, port: VlanIngress.Port, c: VlanIngress.PortCfg, csr: Mirrors)
    requires FwInv(f) && csr == f.vs.csr.(pvid := csr.pvid, mode := csr.mode)
    requires VlanIngress.PortMirrorsAgree(f.ports[port := c], csr)
    ensures FwInv(Configured(f, port, c, csr))
  {
    hide AclHolds, RulesUpTo, VlanIngress.IngressInv, LiveOf, VlanIngress.Installed;
    VlanIngress.InstallKeepsInv(f.ports, f.vs.d, port, c);
    VlanIngress.InstalledOthers(f.vs.d, port, c);
    VlanPartKept(f.roomy, f.vs, Configured(f, port, c, csr).vs);
    hide VlanHolds;
  }

  lemma OtherCallKeeps(f: Fw, d: Db)
    requires FwInv(f) && forall stage: uint8 :: Owned(stage) ==> LiveOf(d, stage) == LiveOf(f.vs.d, stage)
    ensures FwInv(f.(vs := f.vs.(d := d)))
  {
    hide AclHolds, RulesUpTo, VlanIngress.IngressInv, LiveOf;
    assert Owned(ACL_STAGE) && Owned(EGRESS_STAGE) && Owned(DSCP_STAGE) && Owned(VlanIngress.INGRESS_STAGE);
    VlanPartKept(f.roomy, f.vs, f.vs.(d := d));
    hide VlanHolds, Owned;
  }

  lemma CallKeepsInv(f: Fw, c: Call)
    requires FwInv(f) && Allowed(c)
    ensures Sized(f.vs.csr) && FwInv(Apply(f, c))
  {
    SoundSized(f.vs);
    hide AclHolds, VlanHolds, RulesUpTo, VlanIngress.IngressInv, LiveOf, Insert, Delete;
    match c {
      case AclAdd(_) => AclCallKeeps(f, c);
      case AclDelete(_) => AclCallKeeps(f, c);
      case QosInit => DscpInitKeeps(f);
      case QosDscpSet(d, q) => DscpSetKeeps(f, d, q);
      case VlanPortSetPvid(p, v) =>
        if p < 32 && 0 < v <= 255 {
          PortCallKeeps(f, p, f.ports[p].(pvid := v), f.vs.csr.(pvid := f.vs.csr.pvid[p := v]));
        }
      case VlanPortSetMode(p, m) =>
        if p < 32 && m <= 1 {
          PortCallKeeps(f, p, f.ports[p].(mode := m), f.vs.csr.(mode := f.vs.csr.mode[p := m]));
        }
      case OtherInsert(e) =>
        InsertOtherStages(f.vs.d, e);
        OtherCallKeeps(f, Insert(f.vs.d, e).1);
      case OtherDelete(stage, id) =>
        DeleteOtherStages(f.vs.d, stage, id);
        OtherCallKeeps(f, Delete(f.vs.d, stage, id).1);
      case _ => VlanCallKeeps(f, c);
    }
  }

  // ----- runs

  function NoQueues(): QueueMap { seq(64, _ => 0) }

  /** After a reset and the port loop of the VLAN initialisation; everything after that is a call. */
  function Boot(): Fw {
    Fw(AclState(seq(128, _ => BLANK_RULE), 0),
       VlanState(seq(256, _ => Unused()), VlanIngress.PortsReset(Zeroed()), []),
       VlanIngress.DefaultCfgs(), NoQueues(), false, true, true)
  }

  lemma EmptyVlans(c: Mirrors)
    requires Sized(c) && c.member == c.untagged == seq(256, _ => NoPorts())
    ensures VlanInv(VlanState(seq(256, _ => Unused()), c, []))
  {
    hide EgressRule;
    var v: VlanDb := seq(256, _ => Unused());
    forall i: VlanId, p: Vlan.Port ensures !IsMember(v, i, p) && !IsUntagged(v, i, p) {
      assert v[i] == Unused();
    }
    hide IsMember, IsUntagged;
  }

  /** Every port starts in access mode on VLAN 1, in the software and in the registers. */
  lemma BootPorts(p: Vlan.Port)
    ensures Boot().ports[p] == VlanIngress.PortCfg(1, 0)
    ensures Boot().vs.csr.pvid[p] == 1 && Boot().vs.csr.mode[p] == 0
  {
  }

  lemma EmptyAcl()
    ensures AclInv(AclState(seq(128, _ => BLANK_RULE), 0), [])
  {
  }

  lemma BootInv()
    ensures FwInv(Boot())
  {
    assert LiveOf([], ACL_STAGE) == LiveOf([], EGRESS_STAGE) == LiveOf([], VlanIngress.INGRESS_STAGE) == [];
    EmptyAcl();
    EmptyVlans(Boot().vs.csr);
    hide VlanInv, AclInv;
  }

  /** The state after a run of calls from boot, as long as the other modules keep to their own stages. */
  function Run(cs: seq<Call>): Option<Fw> {
    if cs == [] then Some(Boot()) else After(Run(cs[..|cs| - 1]), cs[|cs| - 1])
  }

  function After(f: Option<Fw>, c: Call): Option<Fw> {
    if f.Some? && Sized(f.value.vs.csr) && Allowed(c) then Some(Apply(f.value, c)) else None
  }

  lemma {:induction false} EveryRunKeepsInv(cs: seq<Call>)
    ensures Run(cs).Some? ==> FwInv(Run(cs).value)
  {
    hide FwInv, Allowed, Apply;
    if cs == [] {
      BootInv();
    } else {
      EveryRunKeepsInv(cs[..|cs| - 1]);
      var f := Run(cs[..|cs| - 1]);
      if f.Some? && Allowed(cs[|cs| - 1]) { CallKeepsInv(f.value, cs[|cs| - 1]); }
    }
  }

  lemma ReadyStays(f: Fw, c: Call)
    requires Sized(f.vs.csr)
    ensures f.ready ==> Apply(f, c).ready
    ensures c.QosInit? && |f.vs.d| + DSCP_COUNT <= TCAM_MAX ==> Apply(f, c).ready
  {
    hide Add, Remove, Create, DeleteVlan, PortAdd, PortRemove, Insert, Delete, VlanIngress.Installed, RulesInstalled;
  }

  /** The DSCP map is ready for good once it was initialised with 64 free records in the store. */
  lemma {:induction false} ReadyOnceInitialised(cs: seq<Call>, k: nat)
    requires k < |cs| && cs[k].QosInit? && Run(cs).Some?
    requires Run(cs[..k]).Some? && |Run(cs[..k]).value.vs.d| + DSCP_COUNT <= TCAM_MAX
    ensures Run(cs).value.ready
  {
    hide Allowed, Apply;
    var n := |cs| - 1;
    ReadyStays(Run(cs[..n]).value, cs[n]);
    if k < n {
      assert cs[..n][..k] == cs[..k];
      ReadyOnceInitialised(cs[..n], k);
    }
  }

  function RuleCalls(cs: seq<Call>): nat {
    if cs == [] then 0 else RuleCalls(cs[..|cs| - 1]) + if cs[|cs| - 1].AclAdd? then 1 else 0
  }

  /** A run with at most 65536 calls that add a rule keeps the rules in order. */
  lemma {:induction false} FewRulesStayOrdered(cs: seq<Call>) returns (issued: nat)
    requires RuleCalls(cs) <= 65536 && Run(cs).Some?
    ensures issued <= RuleCalls(cs) && Issued(Run(cs).value.acl, issued) && Run(cs).value.ordered
  {
    if cs == [] {
      issued := 0;
    } else {
      var c, f := cs[|cs| - 1], Run(cs[..|cs| - 1]).value;
      issued := FewRulesStayOrdered(cs[..|cs| - 1]);
      issued := OrderKept(f, c, issued);
    }
  }

  lemma OrderKept(f: Fw, c: Call, issued: nat) returns (issued': nat)
    requires Sized(f.vs.csr) && Issued(f.acl, issued) && f.ordered && (c.AclAdd? ==> issued < 65536)
    ensures Issued(Apply(f, c).acl, issued') && Apply(f, c).ordered
    ensures issued' <= issued + if c.AclAdd? then 1 else 0
  {
    hide Issued, InOrder, Add, Remove, Insert, Delete, FreeFrom, Create, DeleteVlan, PortAdd, PortRemove;
    hide VlanIngress.Installed, RulesInstalled, HasRoomFor;
    issued' := issued;
    if c.AclAdd? {
      FewIdsAreInOrder(f.acl, issued);
      AddIssues(f.acl, f.vs.d, issued, c.rule);
      issued' := if FreeFrom(f.acl.rules, 0).Some? then issued + 1 else issued;
    } else if c.AclDelete? {
      RemoveIssues(f.acl, f.vs.d, issued, c.id);
    }
  }

  // ----- every call stays in its stage

  function StageOf(c: Call): uint8 {
    match c
    case AclAdd(_) => ACL_STAGE
    case AclDelete(_) => ACL_STAGE
    case VlanPortSetPvid(_, _) => VlanIngress.INGRESS_STAGE
    case VlanPortSetMode(_, _) => VlanIngress.INGRESS_STAGE
    case QosInit => DSCP_STAGE
    case QosDscpSet(_, _) => DSCP_STAGE
    case OtherInsert(e) => e.stage
    case OtherDelete(stage, _) => stage
    case _ => EGRESS_STAGE
  }

  lemma QosStaysInStage(f: Fw, c: Call, stage: uint8)
    requires FwInv(f) && (c.QosInit? || c.QosDscpSet?) && stage != DSCP_STAGE
    ensures Sized(f.vs.csr) && LiveOf(Apply(f, c).vs.d, stage) == LiveOf(f.vs.d, stage)
  {
    SoundSized(f.vs);
    hide AclHolds, VlanHolds, RulesUpTo, VlanIngress.IngressInv, LiveOf, Insert, RulesInstalled, RuleFor, DefaultMap;
    if c.QosInit? {
      RulesBelowZero(f.queues, LiveOf(f.vs.d, DSCP_STAGE), f.ready);
      InitKeepsIds(f.vs.d, f.queues, DefaultMap(), DSCP_COUNT);
    } else if c.dscp < 64 {
      RuleStage(c.dscp, c.queue);
      InsertOtherStages(f.vs.d, RuleFor(c.dscp, c.queue));
    }
  }

  lemma AclStaysInStage(f: Fw, c: Call, stage: uint8)
    requires Sized(f.vs.csr) && (c.AclAdd? || c.AclDelete?) && stage != ACL_STAGE
    ensures LiveOf(Apply(f, c).vs.d, stage) == LiveOf(f.vs.d, stage)
  {
    hide LiveOf, Add, Remove, AddFits;
    if c.AclAdd? { AddStays(f.acl, f.vs.d, c.rule); } else { RemoveStays(f.acl, f.vs.d, c.id); }
  }

  lemma PortStaysInStage(f: Fw, c: Call, stage: uint8)
    requires Sized(f.vs.csr) && (c.VlanPortSetPvid? || c.VlanPortSetMode?) && stage != VlanIngress.INGRESS_STAGE
    ensures LiveOf(Apply(f, c).vs.d, stage) == LiveOf(f.vs.d, stage)
  {
    hide LiveOf, VlanIngress.Installed;
    if c.port < 32 {
      var cfg := f.ports[c.port];
      var cfg' := if c.VlanPortSetPvid? then cfg.(pvid := c.vlan) else cfg.(mode := c.mode);
      VlanIngress.InstalledOthers(f.vs.d, c.port, cfg');
    }
  }

  lemma VlanStaysInStage(f: Fw, c: Call, stage: uint8)
    requires Sized(f.vs.csr) && (c.VlanCreate? || c.VlanDelete? || c.VlanPortAdd? || c.VlanPortRemove?)
    requires stage != EGRESS_STAGE
    ensures LiveOf(Apply(f, c).vs.d, stage) == LiveOf(f.vs.d, stage)
  {
    hide LiveOf, DeleteVlan, PortAdd, PortRemove;
    match c {
      case VlanCreate(v) =>
      case VlanDelete(v) => CallsStayInStage(f.vs, v, 0, false);
      case VlanPortAdd(v, p, tagged) => CallsStayInStage(f.vs, v, p, tagged);
      case VlanPortRemove(v, p) => CallsStayInStage(f.vs, v, p, false);
    }
  }

  /** The entries of a stage change by the calls of its own module alone. */
  lemma CallStaysInStage(f: Fw, c: Call, stage: uint8)
    requires FwInv(f) && stage != StageOf(c)
    ensures Sized(f.vs.csr) && LiveOf(Apply(f, c).vs.d, stage) == LiveOf(f.vs.d, stage)
  {
    SoundSized(f.vs);
    if c.AclAdd? || c.AclDelete? {
      AclStaysInStage(f, c, stage);
    } else if c.QosInit? || c.QosDscpSet? {
      QosStaysInStage(f, c, stage);
    } else if c.VlanPortSetPvid? || c.VlanPortSetMode? {
      PortStaysInStage(f, c, stage);
    } else if c.OtherInsert? {
      InsertOtherStages(f.vs.d, c.e);
    } else if c.OtherDelete? {
      DeleteOtherStages(f.vs.d, c.stage, c.tableId);
    } else {
      VlanStaysInStage(f, c, stage);
    }
    hide FwInv, LiveOf, Insert, Delete, Add, Remove, DeleteVlan, PortAdd, PortRemove, Create;
    hide MapInit, MapSet, VlanIngress.SetPvid, VlanIngress.SetMode;
  }

  // ----- what a packet experiences

  /** At stage 1 a packet is dropped exactly when the access list says so, as long as its rules are in order. The tests
      are on the addresses, the port and the DSCP byte the packet came in with, whatever the routes, the switching
      entries and the traps before did to it. */
  ghost predicate DeniedAsListed(f: Fw, p: Phv) {
    Reaches(f.vs.d, p, 1) && f.ordered ==>
      Before(f.vs.d, p, 2) == var q := Before(f.vs.d, p, 1);
        if Denied(f.acl.rules, Src(p), Dst(p), Dport(p)) then q.(drop := true) else q
  }

  /** And a denied packet leaves the pipeline as it was then. */
  lemma DeniedIsFinal(f: Fw, p: Phv)
    requires FwInv(f) && f.ordered && Reaches(f.vs.d, p, 1) && Denied(f.acl.rules, Src(p), Dst(p), Dport(p))
    ensures Forwarded(f.vs.d, p) == Before(f.vs.d, p, 1).(drop := true)
  {
    hide AclInv, Before, Denied, LiveOf, VlanHolds, RulesUpTo, VlanIngress.IngressInv, Src, Dst, Dport;
    AtStageOne(f, p);
    LeavingIsFinal(f.vs.d, p, 2, NUM_STAGES);
  }

  /** At stage 4 it is assigned the VLAN of its port, if that has been configured, whatever tag it carries. */
  ghost predicate AssignedAsConfigured(f: Fw, p: Phv) {
    Reaches(f.vs.d, p, 4) ==>
      Before(f.vs.d, p, 5) == var q := Before(f.vs.d, p, 4);
        if q.igPort < 32 && Has(LiveOf(f.vs.d, 4), q.igPort * 2) then q.(vlanId := f.ports[q.igPort].pvid) else q
  }

  /** At stage 6 its tag is treated as the VLAN table says if its VLAN and output port have an entry, as all members do
      as long as none has been turned away. */
  ghost predicate TagAsMember(f: Fw, p: Phv) {
    Reaches(f.vs.d, p, 6) ==>
      var q := Before(f.vs.d, p, 6);
      var has := q.egPort < 32 && Has(LiveOf(f.vs.d, 6), EgressEntry(q.egPort, q.vlanId % 256));
      && Forwarded(f.vs.d, p) == (if has then EgressOutcome(f.vs.vlans, q) else q)
      && (f.roomy ==> Forwarded(f.vs.d, p) == EgressOutcome(f.vs.vlans, q))
  }

  /** At stage 5, once initialised, it gets the queue of its code point, and leaves with it. */
  ghost predicate QueuedAsMapped(f: Fw, p: Phv) {
    Reaches(f.vs.d, p, 5) && f.ready ==>
      && Before(f.vs.d, p, 6) == Before(f.vs.d, p, 5).(qosPrio := f.queues[p.hdr[OFF_IPV4_DSCP] / 4])
      && Forwarded(f.vs.d, p).qosPrio == f.queues[p.hdr[OFF_IPV4_DSCP] / 4]
  }

  /** And at stages 0 and 2 the entries of the routing and the switching module choose. */
  ghost predicate AsConfigured(f: Fw, p: Phv) {
    && (Reaches(f.vs.d, p, 0) ==> RoutedAsListed(f.vs.d, p)) && (Reaches(f.vs.d, p, 2) ==> SwitchedAsListed(f.vs.d, p))
    && DeniedAsListed(f, p) && AssignedAsConfigured(f, p) && QueuedAsMapped(f, p) && TagAsMember(f, p)
  }

  /** After any run of calls, any packet is treated as configured. */
  lemma AnyRunAnyPacket(cs: seq<Call>, p: Phv)
    ensures Run(cs).Some? ==> AsConfigured(Run(cs).value, p)
  {
    hide FwInv, AsConfigured, Run;
    EveryRunKeepsInv(cs);
    if Run(cs).Some? { PacketAsConfigured(Run(cs).value, p); }
  }

  lemma PacketAsConfigured(f: Fw, p: Phv)
    requires FwInv(f)
    ensures AsConfigured(f, p)
  {
    hide AclInv, VlanInv, VlanSound, RulesUpTo, VlanIngress.IngressInv, VlanIngress.PortMirrorsAgree, LiveOf;
    if f.ordered { AtStageOne(f, p); }
    AtStageFour(f, p);
    AtStageSix(f, p);
    if f.ready { AtStageFive(f, p); }
    if Reaches(f.vs.d, p, 0) { StageZeroRoutes(f.vs.d, p); }
    if Reaches(f.vs.d, p, 2) { StageTwoSwitches(f.vs.d, p); }
    hide RoutedAsListed, SwitchedAsListed, Before;
    hide AssignedAsConfigured, QueuedAsMapped, TagAsMember;
  }

  /** After any run with the rules in order: whatever address a packet came in with, once routed and not denied it
      leaves stage 2 by the port of the first switching entry for the next hop's address, or else by the port of the
      route. */
  lemma AnyRunRoutes(cs: seq<Call>, p: Phv, route: TcamEntry, next: Phv, m: Option<TcamEntry>)
    requires Run(cs).Some? && Run(cs).value.ordered
    requires Reaches(Run(cs).value.vs.d, p, 0) && Reaches(Run(cs).value.vs.d, p, 2)
    requires IsFirstOn(LiveOf(Run(cs).value.vs.d, 0), p, 34, 4, Some(route)) && route.actionId == ACTION_FORWARD
    requires next.hdr[..6] == route.params[1..7] && IsFirstOn(LiveOf(Run(cs).value.vs.d, 2), next, 0, 6, m)
    ensures var q := Before(Run(cs).value.vs.d, p, 3);
      && (m.None? ==> q.egPort == route.params[0])
      && (m.Some? && m.value.actionId == ACTION_L2_FORWARD ==> q.egPort == m.value.params[0])
      && (m.Some? && m.value.actionId == ACTION_FLOOD ==> q.egPort == 0xFF)
  {
    hide Run, Before, LiveOf, IsFirstOn, VlanHolds, AclInv, RulesUpTo, VlanIngress.IngressInv;
    EveryRunKeepsInv(cs);
    var f := Run(cs).value;
    RuleActions(f.acl, LiveOf(f.vs.d, ACL_STAGE));
    RouteChoosesNextHop(f.vs.d, p, route, next, m);
  }

  lemma RuleActions(s: AclState, l: seq<TcamEntry>)
    requires AclInv(s, l)
    ensures forall e :: e in l ==> e.actionId in {ACTION_PERMIT, ACTION_DENY}
  {
    forall e | e in l ensures e.actionId in {ACTION_PERMIT, ACTION_DENY} {
      var k: nat :| Present(s.rules, k, e);
      RuleAction(s.rules[k]);
    }
    hide EntryOf;
  }

  lemma RuleAction(r: Rule)
    ensures EntryOf(r).actionId in {ACTION_PERMIT, ACTION_DENY}
  {
  }

  lemma AtStageOne(f: Fw, p: Phv)
    requires AclInv(f.acl, LiveOf(f.vs.d, ACL_STAGE))
    ensures DeniedAsListed(f, p)
  {
    hide Step, AclInv, Denied, Src, Dst, Dport, LiveOf;
    StageOneDecides(f.acl, f.vs.d, Before(f.vs.d, p, 1));
    FieldsKept(f.vs.d, p, 1);
    AfterStage(f.vs.d, p, 1);
    hide Before;
  }

  lemma AtStageFour(f: Fw, p: Phv)
    requires VlanIngress.IngressInv(f.ports, LiveOf(f.vs.d, VlanIngress.INGRESS_STAGE))
    ensures AssignedAsConfigured(f, p)
  {
    hide Step, VlanIngress.IngressInv, LiveOf, Has;
    VlanIngress.TagIsNeverRead(f.ports, f.vs.d, Before(f.vs.d, p, 4));
    AfterStage(f.vs.d, p, 4);
    hide Before;
  }

  lemma AtStageSix(f: Fw, p: Phv)
    requires VlanHolds(f.roomy, f.vs)
    ensures TagAsMember(f, p)
  {
    hide Step, VlanSound, VlanInv, LiveOf, Has, EgressOutcome;
    StageSixActsOnEntries(f.vs, Before(f.vs.d, p, 6));
    if f.roomy { StageSixActs(f.vs, Before(f.vs.d, p, 6)); }
    AfterStage(f.vs.d, p, 6);
    hide Before;
  }

  lemma AtStageFive(f: Fw, p: Phv)
    requires RulesUpTo(f.queues, LiveOf(f.vs.d, DSCP_STAGE), DSCP_COUNT) && TagAsMember(f, p)
    ensures QueuedAsMapped(f, p)
  {
    hide Step, RulesUpTo, LiveOf, Has;
    StageFiveAssigns(f.queues, f.vs.d, Before(f.vs.d, p, 5));
    FieldsKept(f.vs.d, p, 5);
    AfterStage(f.vs.d, p, 5);
    AfterStage(f.vs.d, p, 6);
    hide Before;
  }

  lemma AfterStage(d: seq<Rec>, p: Phv, k: uint8)
    requires k < 255
    ensures Before(d, p, k + 1) == var q := Before(d, p, k); if Leaving(q) then q else Step(d, q, k)
  {
    hide Step;
  }

  lemma FieldsKept(d: seq<Rec>, p: Phv, k: uint8)
    ensures var q := Before(d, p, k);
      && Src(q) == Src(p) && Dst(q) == Dst(p) && Dport(q) == Dport(p)
      && q.hdr[OFF_IPV4_DSCP] == p.hdr[OFF_IPV4_DSCP] && EthType(q) == EthType(p)
  {
    BeforeKeepsFields(d, p, k);
    var q := Before(d, p, k);
    hide Before, ReadBe32;
    assert q.hdr[6..14][6] == p.hdr[6..14][6] && q.hdr[6..14][7] == p.hdr[6..14][7];
    SameTail(q.hdr, p.hdr, 19);
    SameTail(q.hdr, p.hdr, 40);
    SameTail(q.hdr, p.hdr, 41);
    SameSlice(q.hdr, p.hdr, 30);
    SameSlice(q.hdr, p.hdr, 34);
  }

  lemma SameTail(a: Hdr, b: Hdr, i: nat)
    requires a[16..] == b[16..] && 16 <= i < 512
    ensures a[i] == b[i]
  {
    assert a[16..][i - 16] == b[16..][i - 16];
  }

  lemma SameSlice(a: Hdr, b: Hdr, i: nat)
    requires a[16..] == b[16..] && 16 <= i <= 508
    ensures ReadBe32(a, i) == ReadBe32(b, i)
  {
    forall k | i <= k < i + 4 ensures a[k] == b[k] { SameTail(a, b, k); }
    SameFourBytes(a, i, b, i);
  }

  // ----- the ARP trap beside them

  const TRAP_STAGE: uint8 := 3

  function EthType(p: Phv): uint16 { Be16(p.hdr[OFF_ETH_TYPE], p.hdr[OFF_ETH_TYPE + 1]) }

  lemma EthTypeIs(p: Phv)
    ensures EthType(p) == p.hdr[12] as int * 256 + p.hdr[13] as int
  {
  }

  /** The entry the ARP initialisation installs. */
  function ArpTrap(): TcamEntry {
    TcamEntry(TcamKey(Pad([0x08, 0x06]), 2), TcamKey(Pad([0xFF, 0xFF]), 2), ACTION_PUNT_CPU, NoParams(), TRAP_STAGE, 0)
  }

  /** The trap is installed by call `k`, with a free record in the store, and nothing else touches its stage. */
  ghost predicate TrapInstalled(cs: seq<Call>, k: nat) {
    && k < |cs| && cs[k] == OtherInsert(ArpTrap())
    && (forall i :: 0 <= i < |cs| && i != k ==> StageOf(cs[i]) != TRAP_STAGE)
    && (Run(cs[..k]).Some? ==> |Run(cs[..k]).value.vs.d| < TCAM_MAX)
  }

  lemma {:induction false} TrapStage(cs: seq<Call>, k: nat, n: nat)
    requires TrapInstalled(cs, k) && n <= |cs| && Run(cs[..n]).Some?
    ensures LiveOf(Run(cs[..n]).value.vs.d, TRAP_STAGE) == if n <= k then [] else [ArpTrap()]
  {
    hide FwInv, Apply, ArpTrap, Allowed;
    if n > 0 {
      assert cs[..n][..n - 1] == cs[..n - 1] && cs[..n][n - 1] == cs[n - 1];
      TrapStage(cs, k, n - 1);
      EveryRunKeepsInv(cs[..n - 1]);
      var f := Run(cs[..n - 1]).value;
      if n - 1 == k {
        TrapTaken(f);
      } else {
        CallStaysInStage(f, cs[n - 1], TRAP_STAGE);
      }
    }
  }

  lemma TrapTaken(f: Fw)
    requires |f.vs.d| < TCAM_MAX && LiveOf(f.vs.d, TRAP_STAGE) == [] && Sized(f.vs.csr)
    ensures LiveOf(Apply(f, OtherInsert(ArpTrap())).vs.d, TRAP_STAGE) == [ArpTrap()]
  {
    InsertPerStage(f.vs.d, ArpTrap(), TRAP_STAGE);
    hide LiveOf, Insert, Has;
  }

  lemma TrapMatchesIff(key: KeyBytes)
    ensures EntryMatches(ArpTrap(), key, 2) <==> key[0] == 0x08 && key[1] == 0x06
  {
    var e := ArpTrap();
    assert e.mask.bytes[0] == 0xFF && e.mask.bytes[1] == 0xFF && e.key.bytes[0] == 0x08 && e.key.bytes[1] == 0x06;
    Byte8();
    AndOnes(key[0], 8);
    AndOnes(key[1], 8);
    AndOnes(0x08, 8);
    AndOnes(0x06, 8);
    hide And, Pow2, ArpTrap;
    assert EntryMatches(e, key, 2) <==> ByteMatches(e, key, 0) && ByteMatches(e, key, 1);
  }

  lemma TrapActs(d: seq<Rec>, p: Phv)
    requires LiveOf(d, TRAP_STAGE) == [ArpTrap()]
    ensures Step(d, p, TRAP_STAGE) == if EthType(p) == ArpTable.ETH_TYPE_ARP then p.(punt := true) else p
  {
    var key := Pad(KeyBytesOf(p, TRAP_STAGE));
    assert key[0] == p.hdr[OFF_ETH_TYPE] && key[1] == p.hdr[OFF_ETH_TYPE + 1] && |KeyBytesOf(p, TRAP_STAGE)| == 2;
    LookupIsFirstMatch(d, TRAP_STAGE, key, 2);
    TrapMatchesIff(key);
    hide LiveOf, Lookup, EntryMatches, Pad, KeyBytesOf;
    assert FirstMatch([], key, 2) == None;
  }

  /** Whatever the three modules and the modules of other stages do before and after the ARP trap is installed, a frame
      that reaches its stage is punted exactly when it is an ARP frame. */
  lemma ArpIsTrapped(cs: seq<Call>, k: nat, p: Phv)
    requires TrapInstalled(cs, k) && Run(cs).Some?
    ensures var d := Run(cs).value.vs.d;
      Reaches(d, p, TRAP_STAGE) ==>
        Before(d, p, TRAP_STAGE + 1) == var q := Before(d, p, TRAP_STAGE);
          if EthType(p) == ArpTable.ETH_TYPE_ARP then q.(punt := true) else q
    ensures var d := Run(cs).value.vs.d;
      Reaches(d, p, TRAP_STAGE) && EthType(p) == ArpTable.ETH_TYPE_ARP ==>
        Forwarded(d, p) == Before(d, p, TRAP_STAGE).(punt := true)
  {
    assert cs[..|cs|] == cs;
    TrapStage(cs, k, |cs|);
    var d := Run(cs).value.vs.d;
    FieldsKept(d, p, TRAP_STAGE);
    TrapActs(d, Before(d, p, TRAP_STAGE));
    AfterStage(d, p, TRAP_STAGE);
    if Leaving(Before(d, p, TRAP_STAGE + 1)) { LeavingIsFinal(d, p, TRAP_STAGE + 1, NUM_STAGES); }
    hide Step, Before, LiveOf, EthType;
  }

  // ----- what each call achieves in the software tables

  /** Every call does to the tables of its module what it is for; the calls of the other modules reach the store. */
  ghost predicate Achieved(f: Fw, c: Call, g: Fw) {
    match c
    case AclAdd(r) =>
      if Takes(f.acl, f.vs.d) then OneMore(f.acl, g.acl, r.(valid := true, id := f.acl.nextId))
      else SameValid(f.acl, g.acl)
    case AclDelete(id) => !HasRule(g.acl, id)
    case VlanCreate(v) => 1 <= v <= 255 ==> Exists(g.vs.vlans, v)
    case VlanDelete(v) => !Exists(g.vs.vlans, v)
    case VlanPortAdd(v, p, tagged) => Exists(f.vs.vlans, v) && p < 32 ==>
      IsMember(g.vs.vlans, v, p) && (IsUntagged(g.vs.vlans, v, p) <==> !tagged)
    case VlanPortRemove(v, p) => Exists(f.vs.vlans, v) && p < 32 ==> !IsMember(g.vs.vlans, v, p)
    case VlanPortSetPvid(p, v) => p < 32 && 1 <= v <= 255 ==> g.ports[p].pvid == v
    case VlanPortSetMode(p, m) => p < 32 && m <= 1 ==> g.ports[p].mode == m
    case QosInit => g.queues == DefaultMap()
    case QosDscpSet(k, q) => k < 64 && q < 8 ==> g.queues[k] == q
    case OtherInsert(e) => |f.vs.d| < TCAM_MAX ==> Has(LiveOf(g.vs.d, e.stage), e.tableId)
    case OtherDelete(stage, id) => Has(LiveOf(f.vs.d, stage), id) ==>
      LiveOf(g.vs.d, stage) == Removed(LiveOf(f.vs.d, stage), id)
  }

  lemma CallAchieves(f: Fw, c: Call)
    requires FwInv(f) && f.ordered
    ensures Sized(f.vs.csr) && Achieved(f, c, Apply(f, c))
  {
    SoundSized(f.vs);
    hide AclInv, VlanSound, VlanInv, RulesUpTo, VlanIngress.IngressInv, LiveOf, Insert, Delete, Add, Remove, Has;
    hide Create, DeleteVlan, PortAdd, PortRemove, Takes, OneMore, SameValid, HasRule, AddFits, HasRoomFor;
    hide VlanIngress.SetPvid, VlanIngress.SetMode, MapSet, RulesInstalled, DefaultMap, Removed, Upserted;
    match c {
      case AclAdd(r) => AddMeans(f.acl, f.vs.d, r);
      case AclDelete(id) => RemoveMeans(f.acl, f.vs.d, id);
      case VlanCreate(v) => CreateMeans(f.vs, v);
      case VlanDelete(v) => DeleteMeans(f.vs, v);
      case VlanPortAdd(v, p, tagged) => PortAddMeans(f.vs, v, p, tagged);
      case VlanPortRemove(v, p) => PortRemoveMeans(f.vs, v, p);
      case VlanPortSetPvid(p, v) => VlanIngress.SetPvidMeans(PortPart(f), p, v);
      case VlanPortSetMode(p, m) => VlanIngress.SetModeMeans(PortPart(f), p, m);
      case QosInit =>
      case QosDscpSet(k, q) => MapSetMeans(QosPart(f), k, q);
      case OtherInsert(e) =>
        InsertPerStage(f.vs.d, e, e.stage);
        VlanIngress.UpsertedHas(LiveOf(f.vs.d, e.stage), e);
        InsertTakenIff(f.vs.d, e);
      case OtherDelete(stage, id) => DeletePerStage(f.vs.d, stage, id, stage);
    }
  }
}
