/** The access lists in the hardware: the entries of stage 1, translated and installed at the index of their rule id,
    decide about a header vector as the software lookup does about the packet. */
module HardwareAcl {
  import opened Words
  import opened Bits
  import opened Hal
  import opened SimHal
  import opened StageLists
  import opened MauTcam
  import opened MauAlu
  import opened MauStage
  import opened RtlTranslation
  import Acl
  import PktModel
  import Csr
  import Firmware
  import Vlan
  import VlanIngress
  import Qos

  /** The hardware holds exactly the translations of a stage's entries, each at the index of its id. */
  ghost predicate Mirrors(t: Table, r: Rows, l: seq<TcamEntry>) {
    && (forall i: Index :: t[i].valid ==> exists e :: e in l && e.tableId == i)
    && (forall e :: e in l ==> e.tableId < 2048 && t[e.tableId] == RtlEntry(e) && r[e.tableId] == RtlRow(e))
  }

  lemma EmptyMirrors(t: Table, r: Rows)
    requires forall i: Index :: !t[i].valid
    ensures Mirrors(t, r, [])
  {
  }

  /** Inserting on both sides keeps them in step. */
  lemma InsertKeepsMirrors(t: Table, r: Rows, l: seq<TcamEntry>, e: TcamEntry)
    requires Mirrors(t, r, l) && UniqueIds(l) && e.tableId < 2048
    ensures Mirrors(t[e.tableId := RtlEntry(e)], r[e.tableId := RtlRow(e)], Upserted(l, e))
  {
    UpsertedMembers(l, e);
    hide RtlEntry, RtlRow, UniqueIds, Upserted;
    var t', u := t[e.tableId := RtlEntry(e)], Upserted(l, e);
    forall i: Index | t'[i].valid ensures exists x :: x in u && x.tableId == i {
      if i == e.tableId {
        assert e in u && e.tableId == i;
      } else {
        var x :| x in l && x.tableId == i;
        assert x in u;
      }
    }
  }

  /** Deleting on both sides keeps them in step, whatever is left in the row. */
  lemma DeleteKeepsMirrors(t: Table, r: Rows, l: seq<TcamEntry>, id: uint16, dead: Entry, row: Action)
    requires Mirrors(t, r, l) && UniqueIds(l) && id < 2048 && !dead.valid
    ensures Mirrors(t[id := dead], r[id := row], Removed(l, id))
  {
    RemovedMembers(l, id);
    hide RtlEntry, RtlRow, UniqueIds, Removed;
    var t', u := t[id := dead], Removed(l, id);
    forall i: Index | t'[i].valid ensures exists x :: x in u && x.tableId == i {
      var x :| x in l && x.tableId == i;
      assert x in u;
    }
  }

  ghost predicate SameBits(l: seq<TcamEntry>, keyLen: uint8) {
    forall e :: e in l ==> SoftMask(e, keyLen) == HardMask(e)
  }

  lemma EntryMatchesBoth(e: TcamEntry, k: KeyBytes, keyLen: uint8)
    requires keyLen <= 64 && SoftMask(e, keyLen) == HardMask(e)
    ensures EntryMatches(e, k, keyLen) <==> Matches(RtlEntry(e), Packed(k))
  {
    TranslationPreservesMatchIff(e, keyLen);
    hide EntryMatches, Matches, Packed, SoftMask, HardMask, RtlEntry;
  }

  /** The lowest-index priority of the hardware and the first match of the software pick the same entry. */
  lemma SamePick(t: Table, r: Rows, l: seq<TcamEntry>, k: KeyBytes, keyLen: uint8)
    requires keyLen <= 64 && Mirrors(t, r, l) && Increasing(l) && SameBits(l, keyLen)
    ensures var h, m := First(t, Packed(k)), FirstMatch(l, k, keyLen);
      && (h.Some? <==> m.Some?)
      && (m.Some? ==>
        h.value == m.value.tableId && t[h.value] == RtlEntry(m.value) && r[m.value.tableId] == RtlRow(m.value))
  {
    forall e | e in l ensures EntryMatches(e, k, keyLen) <==> Matches(RtlEntry(e), Packed(k)) {
      EntryMatchesBoth(e, k, keyLen);
    }
    FirstMatchIsMember(l, k, keyLen);
    FirstMatchIsLeast(l, k, keyLen);
    var m := FirstMatch(l, k, keyLen);
    var pick: Option<Index> := match m case None => None case Some(e) => Some(e.tableId);
    hide EntryMatches, RtlEntry, RtlRow, Increasing, SameBits, FirstMatch, Packed, WordMatches;
    forall i: Index | Matches(t[i], Packed(k))
      ensures exists e :: e in l && e.tableId == i && EntryMatches(e, k, keyLen)
    {
      var e :| e in l && e.tableId == i;
      assert t[e.tableId] == RtlEntry(e);
    }
    FirstIsUnique(t, Packed(k), pick);
  }

  // ----- the access lists

  lemma RuleBits(s: Acl.AclState, l: seq<TcamEntry>)
    requires Acl.AclInv(s, l)
    ensures SameBits(l, 10)
  {
    hide SoftMask, HardMask, Acl.EntryOf, Increasing;
    forall e | e in l ensures SoftMask(e, 10) == HardMask(e) {
      var k: nat :| Acl.Present(s.rules, k, e);
      RuleLengths(s.rules[k]);
      EqualLengthsSuffice(e, 10);
    }
  }

  lemma RuleLengths(r: Acl.Rule)
    ensures var e := Acl.EntryOf(r); e.mask.len == e.key.len <= 10
  {
  }

  /** The 64 header bytes a stage matches on. */
  function LowBytes64(phv: Phv): KeyBytes { phv[..64] }

  lemma KeyIsPacked(phv: Phv)
    ensures KeyOf(phv) == Packed(LowBytes64(phv))
  {
    forall i | 0 <= i < 16 ensures Field(phv, 4 * i, 4) == WordAt(LowBytes64(phv), i) { FieldIsWord(phv, i); }
    hide Field, WordAt;
  }

  lemma FieldIsWord(phv: Phv, i: nat)
    requires i < 16
    ensures Field(phv, 4 * i, 4) == WordAt(LowBytes64(phv), i)
  {
    var o := 4 * i;
    assert Field(phv, o + 3, 1) == phv[o + 3];
    assert Field(phv, o + 2, 2) == phv[o + 2] + 256 * Field(phv, o + 3, 1);
    assert Field(phv, o + 1, 3) == phv[o + 1] + 256 * Field(phv, o + 2, 2);
    assert Field(phv, o, 4) == phv[o] + 256 * Field(phv, o + 1, 3);
  }

  lemma RuleRowActs(rule: Acl.Rule, f: Flit, hash: uint32)
    ensures Alu(RtlRow(Acl.EntryOf(rule)), true, f, hash) == if rule.deny then f.(meta := f.meta.(drop := true)) else f
  {
    var row := RtlRow(Acl.EntryOf(rule));
    assert row.id == if rule.deny then 0x9000 else 0 by { RuleAction(rule); }
    hide RtlRow;
    assert row.Op() == if rule.deny then OP_DROP else 0;
  }

  lemma RuleAction(rule: Acl.Rule)
    ensures Acl.EntryOf(rule).actionId == if rule.deny then PktModel.ACTION_DENY else PktModel.ACTION_PERMIT
  {
  }

  /** Only the ten bytes of addresses and port are compared. */
  lemma SameTenBytes(e: TcamEntry, a: KeyBytes, b: KeyBytes)
    requires a[..10] == b[..10]
    ensures EntryMatches(e, a, 10) == EntryMatches(e, b, 10)
  {
    hide And8;
    forall i | 0 <= i < 10 ensures a[i] == b[i] { assert a[..10][i] == b[..10][i]; }
    assert forall i :: 0 <= i < CmpLen(e, 10) ==> ByteMatches(e, a, i) == ByteMatches(e, b, i);
  }

  lemma {:induction false} SameFirstMatch(l: seq<TcamEntry>, a: KeyBytes, b: KeyBytes)
    requires a[..10] == b[..10]
    ensures FirstMatch(l, a, 10) == FirstMatch(l, b, 10)
  {
    hide EntryMatches;
    if l != [] {
      SameTenBytes(l[0], a, b);
      SameFirstMatch(l[1..], a, b);
    }
  }

  lemma KeysAgree(phv: Phv, p: PktModel.Phv)
    requires phv[..10] == PktModel.KeyBytesOf(p, 1)
    ensures LowBytes64(phv)[..10] == Acl.PacketKey(p)[..10]
  {
    assert Acl.PacketKey(p)[..10] == PktModel.KeyBytesOf(p, 1);
    hide PktModel.KeyBytesOf, PktModel.Pad;
  }

  /** What the hardware picks is the translation of what the software picks. */
  lemma PicksSame(s: Acl.AclState, l: seq<TcamEntry>, t: Table, r: Rows, phv: Phv, p: PktModel.Phv)
    requires Acl.AclInv(s, l) && Mirrors(t, r, l)
    requires phv[..10] == PktModel.KeyBytesOf(p, 1)
    ensures var h, m := First(t, KeyOf(phv)), FirstMatch(l, Acl.PacketKey(p), 10);
      && (h.Some? <==> m.Some?)
      && (m.Some? ==>
        h.value == m.value.tableId && t[h.value] == RtlEntry(m.value) && r[m.value.tableId] == RtlRow(m.value))
  {
    KeysAgree(phv, p);
    KeyIsPacked(phv);
    RuleBits(s, l);
    hide First, FirstMatch, KeyOf, Packed, RtlEntry, RtlRow, SameBits, LowBytes64;
    hide Acl.PacketKey, PktModel.KeyBytesOf, Mirrors;
    SamePick(t, r, l, LowBytes64(phv), 10);
    SameFirstMatch(l, LowBytes64(phv), Acl.PacketKey(p));
  }

  /** A header vector that carries a packet's addresses and port in its first ten bytes leaves the hardware stage
      dropped exactly when the software access list denies the packet, and otherwise unchanged. */
  lemma HardwareDecidesAlike(s: Acl.AclState, l: seq<TcamEntry>, t: Table, r: Rows,
                             p: PktModel.Phv, f: Flit, hash: uint32)
    requires Acl.AclInv(s, l) && Mirrors(t, r, l)
    requires f.phv[..10] == PktModel.KeyBytesOf(p, 1)
    ensures Process(t, r, f, hash) ==
      if Acl.Denied(s.rules, Acl.Src(p), Acl.Dst(p), Acl.Dport(p)) then f.(meta := f.meta.(drop := true)) else f
  {
    hide FirstMatch, First, Mirrors, KeyOf, Alu, RtlRow, RtlEntry, PktModel.KeyBytesOf;
    hide Acl.Src, Acl.Dst, Acl.Dport, Acl.EntryOf, Acl.PacketKey, Acl.Decides;
    PicksSame(s, l, t, r, f.phv, p);
    Acl.FirstMatchDecides(s, l, p);
    var m := FirstMatch(l, Acl.PacketKey(p), 10);
    if m.Some? {
      var n: nat :| Acl.Present(s.rules, n, m.value) && Acl.Decides(s.rules, n, Acl.Src(p), Acl.Dst(p), Acl.Dport(p));
      Acl.OnlyOneDecides(s, p, n);
      RuleRowActs(s.rules[n], f, hash);
      PointerIsIndex(m.value);
    } else {
      MissPasses(f, hash);
    }
  }

  lemma PointerIsIndex(e: TcamEntry)
    ensures RtlEntry(e).actionPtr == e.tableId
  {
  }

  lemma MissPasses(f: Flit, hash: uint32)
    ensures Alu(NO_ACTION, false, f, hash) == f
  {
  }

  // ----- the entries of the other modules

  /** The entries that the access lists, the VLANs, the DSCP map and the ARP initialisation install. */
  ghost predicate FromFirmware(e: TcamEntry) {
    || (exists r: Acl.Rule :: e == Acl.EntryOf(r))
    || (exists p: Vlan.Port, v: Vlan.VlanId, u: bool :: e == Vlan.EgressRule(p, v, u))
    || (exists p: VlanIngress.Port, c: VlanIngress.PortCfg :: e == VlanIngress.UntaggedRule(p, c))
    || (exists p: VlanIngress.Port, c: VlanIngress.PortCfg :: e == VlanIngress.TaggedRule(p, c))
    || (exists d: Qos.Dscp, q: uint8 :: e == Qos.RuleFor(d, q))
    || e == Firmware.ArpTrap()
  }

  /** The length of the packet key of a stage, in bytes. */
  function KeyLength(stage: uint8): uint8 {
    match stage case 0 => 4 case 1 => 10 case 2 => 6 case 3 => 2 case 4 => 3 case 5 => 1 case _ => 2
  }

  lemma KeyLengthIs(p: PktModel.Phv, stage: uint8)
    ensures |PktModel.KeyBytesOf(p, stage)| == KeyLength(stage)
  {
  }

  lemma FirmwareLengths(e: TcamEntry)
    requires FromFirmware(e)
    ensures e.mask.len == e.key.len <= KeyLength(e.stage)
  {
    forall r: Acl.Rule
      ensures Acl.EntryOf(r).mask.len == Acl.EntryOf(r).key.len <= 10 && Acl.EntryOf(r).stage == 1
    {
      RuleLengths(r);
      Acl.EntryId(r);
    }
    hide Acl.EntryOf;
  }

  /** Each of them, translated, matches in the hardware exactly the packets it matches in the software. */
  lemma EveryModuleTranslates(e: TcamEntry, p: PktModel.Phv)
    requires FromFirmware(e)
    ensures var key := PktModel.KeyBytesOf(p, e.stage);
      EntryMatches(e, PktModel.Pad(key), |key|) == Matches(RtlEntry(e), Packed(PktModel.Pad(key)))
  {
    FirmwareLengths(e);
    KeyLengthIs(p, e.stage);
    EqualLengthsSuffice(e, KeyLength(e.stage));
    EntryMatchesBoth(e, PktModel.Pad(PktModel.KeyBytesOf(p, e.stage)), KeyLength(e.stage));
    hide FromFirmware, EntryMatches, Matches, RtlEntry, Packed, PktModel.KeyBytesOf, PktModel.Pad;
  }

  // ----- runs on both sides

  /** The firmware, and the tables of the hardware stage that follows its access list. */
  datatype Both = Both(f: Firmware.Fw, t: Table, r: Rows)

  /** A call of the firmware. A deletion may leave anything in the hardware that is not valid, and any row. */
  datatype Event = Event(call: Firmware.Call, dead: Entry, row: Action)

  /** What the call installs or removes in stage 1, installed or removed in the hardware as well. */
  function Followed(f: Firmware.Fw, t: Table, r: Rows, ev: Event): (Table, Rows) {
    match ev.call
    case AclAdd(rule) =>
      var e := Acl.EntryOf(rule.(valid := true, id := f.acl.nextId));
      if Acl.Add(f.acl, f.vs.d, rule).0 < 0 then (t, r)
      else (t[e.tableId % 2048 := RtlEntry(e)], r[e.tableId := RtlRow(e)])
    case AclDelete(id) =>
      if Acl.Remove(f.acl, f.vs.d, id).0 != HalOk then (t, r) else (t[id % 2048 := ev.dead], r[id := ev.row])
    case _ => (t, r)
  }

  /** Beyond what the firmware alone demands, a rule gets one of the first 2048 ids. */
  predicate PermittedCall(f: Firmware.Fw, c: Firmware.Call) {
    Firmware.Allowed(c) && (c.AclAdd? ==> f.acl.nextId < 2048)
  }

  predicate Permitted(f: Firmware.Fw, ev: Event) { PermittedCall(f, ev.call) && !ev.dead.valid }

  function NextBoth(b: Option<Both>, ev: Event): Option<Both> {
    if b.Some? && Csr.Sized(b.value.f.vs.csr) && Permitted(b.value.f, ev) then
      var h := Followed(b.value.f, b.value.t, b.value.r, ev);
      Some(Both(Firmware.Apply(b.value.f, ev.call), h.0, h.1))
    else None
  }

  /** Both sides after a run from boot, the hardware with an empty table and any rows. */
  function RunBoth(t: Table, r: Rows, evs: seq<Event>): Option<Both> {
    if evs == [] then Some(Both(Firmware.Boot(), t, r)) else NextBoth(RunBoth(t, r, evs[..|evs| - 1]), evs[|evs| - 1])
  }

  ghost predicate InStep(b: Both) {
    Firmware.FwInv(b.f) && (b.f.ordered ==> Mirrors(b.t, b.r, LiveOf(b.f.vs.d, Acl.ACL_STAGE)))
  }

  lemma AclFacts(s: Acl.AclState, l: seq<TcamEntry>)
    requires Acl.AclInv(s, l)
    ensures UniqueIds(l)
  {
    assert Increasing(l);
  }

  lemma AddInStep(f: Firmware.Fw, t: Table, r: Rows, ev: Event)
    requires ev.call.AclAdd? && f.acl.nextId < 2048
    requires var l := LiveOf(f.vs.d, Acl.ACL_STAGE); UniqueIds(l) && Mirrors(t, r, l)
    ensures var a, h := Acl.Add(f.acl, f.vs.d, ev.call.rule), Followed(f, t, r, ev);
      Mirrors(h.0, h.1, LiveOf(a.2, Acl.ACL_STAGE))
  {
    hide Acl.EntryOf, LiveOf, Insert, Mirrors, Acl.FreeFrom, RtlEntry, RtlRow, Upserted, UniqueIds, Has;
    var rule := ev.call.rule.(valid := true, id := f.acl.nextId);
    var e := Acl.EntryOf(rule);
    Acl.EntryId(rule);
    InsertPerStage(f.vs.d, e, Acl.ACL_STAGE);
    InsertKeepsMirrors(t, r, LiveOf(f.vs.d, Acl.ACL_STAGE), e);
  }

  lemma MirroredIds(t: Table, r: Rows, l: seq<TcamEntry>, id: uint16)
    requires Mirrors(t, r, l) && Has(l, id)
    ensures id < 2048
  {
    hide RtlEntry, RtlRow;
    var i :| 0 <= i < |l| && l[i].tableId == id;
    assert l[i] in l;
  }

  lemma DeleteInStep(f: Firmware.Fw, t: Table, r: Rows, ev: Event)
    requires ev.call.AclDelete? && !ev.dead.valid
    requires var l := LiveOf(f.vs.d, Acl.ACL_STAGE); UniqueIds(l) && Mirrors(t, r, l)
    ensures var a, h := Acl.Remove(f.acl, f.vs.d, ev.call.id), Followed(f, t, r, ev);
      Mirrors(h.0, h.1, LiveOf(a.2, Acl.ACL_STAGE))
  {
    hide LiveOf, Delete, Mirrors, Acl.SlotFrom, RtlEntry, RtlRow, Removed, UniqueIds, Has;
    var l, id := LiveOf(f.vs.d, Acl.ACL_STAGE), ev.call.id;
    DeletePerStage(f.vs.d, Acl.ACL_STAGE, id, Acl.ACL_STAGE);
    if Delete(f.vs.d, Acl.ACL_STAGE, id).0 == HalOk {
      MirroredIds(t, r, l, id);
      DeleteKeepsMirrors(t, r, l, id, ev.dead, ev.row);
    }
  }

  lemma StepInStep(b: Both, ev: Event)
    requires InStep(b) && Permitted(b.f, ev)
    ensures NextBoth(Some(b), ev).Some? ==> InStep(NextBoth(Some(b), ev).value)
  {
    Firmware.CallKeepsInv(b.f, ev.call);
    if b.f.ordered {
      AclFacts(b.f.acl, LiveOf(b.f.vs.d, Acl.ACL_STAGE));
      match ev.call {
        case AclAdd(_) => AddInStep(b.f, b.t, b.r, ev);
        case AclDelete(_) => DeleteInStep(b.f, b.t, b.r, ev);
        case _ => Firmware.CallStaysInStage(b.f, ev.call, Acl.ACL_STAGE);
      }
    }
    OrderedStays(b.f, ev.call);
    hide Firmware.FwInv, Firmware.Allowed, LiveOf, Mirrors, Acl.Add, Acl.Remove;
  }

  lemma OrderedStays(f: Firmware.Fw, c: Firmware.Call)
    requires Csr.Sized(f.vs.csr)
    ensures Firmware.Apply(f, c).ordered ==> f.ordered
  {
    hide Acl.Add, Acl.Remove;
  }

  lemma {:induction false} EveryRunInStep(t: Table, r: Rows, evs: seq<Event>)
    requires forall i: Index :: !t[i].valid
    ensures RunBoth(t, r, evs).Some? ==> InStep(RunBoth(t, r, evs).value)
  {
    hide InStep, Followed, Permitted, Firmware.Apply;
    if evs == [] {
      BootInStep(t, r);
    } else {
      EveryRunInStep(t, r, evs[..|evs| - 1]);
      var b := RunBoth(t, r, evs[..|evs| - 1]);
      if b.Some? && Permitted(b.value.f, evs[|evs| - 1]) { StepInStep(b.value, evs[|evs| - 1]); }
    }
  }

  lemma BootInStep(t: Table, r: Rows)
    requires forall i: Index :: !t[i].valid
    ensures InStep(Both(Firmware.Boot(), t, r))
  {
    Firmware.BootInv();
    EmptyMirrors(t, r);
    assert LiveOf([], Acl.ACL_STAGE) == [];
    hide Firmware.FwInv, Mirrors;
  }

  /** After any run of calls of any module, with rule ids below 2048 and in order, and the hardware following the access
      list, a header vector with a packet's addresses and port is dropped exactly when the access list denies the
      packet. */
  lemma AnyRunDecidesAlike(t: Table, r: Rows, evs: seq<Event>, p: PktModel.Phv, f: Flit, hash: uint32)
    requires forall i: Index :: !t[i].valid
    requires f.phv[..10] == PktModel.KeyBytesOf(p, 1)
    ensures RunBoth(t, r, evs).Some? && RunBoth(t, r, evs).value.f.ordered ==>
      var b := RunBoth(t, r, evs).value;
      Process(b.t, b.r, f, hash) ==
        if Acl.Denied(b.f.acl.rules, Acl.Src(p), Acl.Dst(p), Acl.Dport(p)) then f.(meta := f.meta.(drop := true)) else f
  {
    EveryRunInStep(t, r, evs);
    hide RunBoth, Process, Mirrors, Acl.AclInv, Acl.Denied, Acl.Src, Acl.Dst, Acl.Dport, PktModel.KeyBytesOf, LiveOf;
    if RunBoth(t, r, evs).Some? && RunBoth(t, r, evs).value.f.ordered {
      var b := RunBoth(t, r, evs).value;
      assert Acl.AclInv(b.f.acl, LiveOf(b.f.vs.d, Acl.ACL_STAGE));
      hide Firmware.FwInv;
      HardwareDecidesAlike(b.f.acl, LiveOf(b.f.vs.d, Acl.ACL_STAGE), b.t, b.r, p, f, hash);
    }
  }
}
