/** The access control lists (sw/firmware/acl.c): 128 software slots reused in any order, and one table entry of stage 1
    for each rule, found in the order of the rule ids. */
module Acl {
  import opened Words
  import opened Bits
  import opened Hal
  import opened SimHal
  import opened StageLists
  import opened PktModel

  const ACL_TABLE_SIZE: nat := 128
  const ACL_STAGE: uint8 := 1
  const HAL_ERR_FULL: int := -2

  datatype Rule = Rule(
    srcIp: uint32, srcMask: uint32, dstIp: uint32, dstMask: uint32, dport: uint16, deny: bool, valid: bool, id: uint16)

  const BLANK_RULE := Rule(0, 0, 0, 0, 0, true, false, 0)

  type Rules = r: seq<Rule> | |r| == 128 witness seq(128, _ => BLANK_RULE)

  datatype AclState = AclState(rules: Rules, nextId: uint16)

  function Be16Bytes(v: uint16): seq<uint8> { [v / 256, v % 256] }

  function PortMask(dport: uint16): seq<uint8> { if dport != 0 then [0xFF, 0xFF] else [0, 0] }

  /** The table entry of a rule: a permit rule leaves the port out of its key. */
  function EntryOf(r: Rule): TcamEntry {
    if r.deny then
      TcamEntry(TcamKey(Pad(Be32(r.srcIp) + Be32(r.dstIp) + Be16Bytes(r.dport)), 10),
                TcamKey(Pad(Be32(r.srcMask) + Be32(r.dstMask) + PortMask(r.dport)), 10),
                ACTION_DENY, NoParams(), ACL_STAGE, r.id)
    else
      TcamEntry(TcamKey(Pad(Be32(r.srcIp) + Be32(r.dstIp)), 8), TcamKey(Pad(Be32(r.srcMask) + Be32(r.dstMask)), 8),
                ACTION_PERMIT, NoParams(), ACL_STAGE, r.id)
  }

  function FreeFrom(rules: Rules, i: nat): (k: Option<nat>)
    requires i <= ACL_TABLE_SIZE
    ensures k.Some? ==> k.value < ACL_TABLE_SIZE && !rules[k.value].valid
    decreases ACL_TABLE_SIZE - i
  {
    if i == ACL_TABLE_SIZE then None
    else if !rules[i].valid then Some(i)
    else FreeFrom(rules, i + 1)
  }

  function SlotFrom(rules: Rules, id: uint16, i: nat): (k: Option<nat>)
    requires i <= ACL_TABLE_SIZE
    ensures k.Some? ==> i <= k.value < ACL_TABLE_SIZE && rules[k.value].valid && rules[k.value].id == id
    ensures k.None? ==> forall j :: i <= j < ACL_TABLE_SIZE ==> !(rules[j].valid && rules[j].id == id)
    decreases ACL_TABLE_SIZE - i
  {
    if i == ACL_TABLE_SIZE then None
    else if rules[i].valid && rules[i].id == id then Some(i)
    else SlotFrom(rules, id, i + 1)
  }

  /** Adds a rule: the id is used up even when the table store then refuses the entry. */
  function Add(s: AclState, d: Db, r: Rule): (int, AclState, Db) {
    var k := FreeFrom(s.rules, 0);
    if k.None? then (HAL_ERR_FULL, s, d)
    else
      var rule := r.(valid := true, id := s.nextId);
      var next: uint16 := (s.nextId + 1) % 65536;
      var ins := Insert(d, EntryOf(rule));
      if ins.0 == HalOk then (rule.id, AclState(s.rules[k.value := rule], next), ins.1)
      else (HAL_ERR_FULL, AclState(s.rules[k.value := rule.(valid := false)], next), ins.1)
  }

  function Remove(s: AclState, d: Db, id: uint16): (HalCode, AclState, Db) {
    var k := SlotFrom(s.rules, id, 0);
    if k.None? then (HalInval, s, d)
    else
      var del := Delete(d, ACL_STAGE, id);
      (del.0, s.(rules := s.rules[k.value := s.rules[k.value].(valid := false)]), del.1)
  }

  class AccessLists {
    const hal: Store
    const table: array<Rule>
    var nextId: uint16

    ghost predicate Valid()
      reads this, hal
    {
      hal.Valid() && table.Length == ACL_TABLE_SIZE
    }

    ghost function Value(): AclState
      reads this, table
      requires table.Length == ACL_TABLE_SIZE
    {
      AclState(table[..], nextId)
    }

    constructor (store: Store)
      requires store.Valid()
      ensures Valid() && hal == store && fresh(table)
      ensures Value() == AclState(seq(128, _ => BLANK_RULE), 0)
    {
      hal := store;
      table := new Rule[ACL_TABLE_SIZE](_ => BLANK_RULE);
      nextId := 0;
    }

    method AclAlloc() returns (k: Option<nat>)
      requires table.Length == ACL_TABLE_SIZE
      ensures k == FreeFrom(table[..], 0)
    {
      for i := 0 to ACL_TABLE_SIZE
        invariant FreeFrom(table[..], 0) == FreeFrom(table[..], i)
      {
        if !table[i].valid { return Some(i); }
      }
      return None;
    }

    method AclAddDeny(srcIp: uint32, srcMask: uint32, dstIp: uint32, dstMask: uint32, dport: uint16) returns (ret: int)
      requires Valid()
      modifies this`nextId, table, hal`n, hal.db
      ensures Valid()
      ensures (ret, Value(), hal.Value()) ==
        Add(old(Value()), old(hal.Value()), Rule(srcIp, srcMask, dstIp, dstMask, dport, true, true, 0))
    {
      ret := Install(Rule(srcIp, srcMask, dstIp, dstMask, dport, true, true, nextId));
    }

    method AclAddPermit(srcIp: uint32, srcMask: uint32, dstIp: uint32, dstMask: uint32) returns (ret: int)
      requires Valid()
      modifies this`nextId, table, hal`n, hal.db
      ensures Valid()
      ensures (ret, Value(), hal.Value()) ==
        Add(old(Value()), old(hal.Value()), Rule(srcIp, srcMask, dstIp, dstMask, 0, false, true, 0))
    {
      ret := Install(Rule(srcIp, srcMask, dstIp, dstMask, 0, false, true, nextId));
    }

    /** The part the two calls have in common. */
    method Install(r: Rule) returns (ret: int)
      requires Valid() && r.valid && r.id == nextId
      modifies this`nextId, table, hal`n, hal.db
      ensures Valid()
      ensures (ret, Value(), hal.Value()) == Add(old(Value()), old(hal.Value()), r)
    {
      hide Insert, EntryOf, FreeFrom;
      var k := AclAlloc();
      if k.None? { return HAL_ERR_FULL; }
      table[k.value] := r;
      nextId := (nextId + 1) % 65536;
      var code := hal.HalTcamInsert(EntryOf(r));
      if code != HalOk {
        table[k.value] := r.(valid := false);
        assert table[..] == old(table[..])[k.value := r.(valid := false)];
        return HAL_ERR_FULL;
      }
      return r.id;
    }

    method AclDelete(id: uint16) returns (code: HalCode)
      requires Valid()
      modifies table, hal.db
      ensures Valid()
      ensures (code, Value(), hal.Value()) == Remove(old(Value()), old(hal.Value()), id)
    {
      hide Delete;
      for i := 0 to ACL_TABLE_SIZE
        invariant table[..] == old(table[..]) && hal.Value() == old(hal.Value()) && Valid()
        invariant SlotFrom(table[..], id, 0) == SlotFrom(table[..], id, i)
      {
        if table[i].valid && table[i].id == id {
          table[i] := table[i].(valid := false);
          code := hal.HalTcamDelete(ACL_STAGE, id);
          return;
        }
      }
      return HalInval;
    }
  }

  // ----- what a packet experiences

  function Src(p: Phv): uint32 { ReadBe32(p.hdr, OFF_IPV4_SRC) }

  function Dst(p: Phv): uint32 { ReadBe32(p.hdr, OFF_IPV4_DST) }

  function Dport(p: Phv): uint16 { ReadBe16(p.hdr, OFF_TCP_DPORT) }

  /** The bytes of the header that are compared. */
  lemma FieldsAreAt(p: Phv)
    ensures Src(p) == ((p.hdr[30] as int * 256 + p.hdr[31] as int) * 256 + p.hdr[32] as int) * 256 + p.hdr[33] as int
    ensures Dst(p) == ((p.hdr[34] as int * 256 + p.hdr[35] as int) * 256 + p.hdr[36] as int) * 256 + p.hdr[37] as int
    ensures Dport(p) == p.hdr[40] as int * 256 + p.hdr[41] as int
  {
  }

  predicate RuleMatches(r: Rule, src: uint32, dst: uint32, dport: uint16) {
    && And32(src, r.srcMask) == And32(r.srcIp, r.srcMask)
    && And32(dst, r.dstMask) == And32(r.dstIp, r.dstMask)
    && (r.deny && r.dport != 0 ==> dport == r.dport)
  }

  predicate Applies(r: Rule, src: uint32, dst: uint32, dport: uint16) { r.valid && RuleMatches(r, src, dst, dport) }

  /** The rule that decides: it applies, and no rule that applies has a smaller id. */
  ghost predicate Decides(rules: Rules, k: nat, src: uint32, dst: uint32, dport: uint16) {
    && k < ACL_TABLE_SIZE && Applies(rules[k], src, dst, dport)
    && forall j :: 0 <= j < ACL_TABLE_SIZE && Applies(rules[j], src, dst, dport) ==> rules[k].id <= rules[j].id
  }

  ghost predicate Denied(rules: Rules, src: uint32, dst: uint32, dport: uint16) {
    exists k: nat :: Decides(rules, k, src, dst, dport) && rules[k].deny
  }

  // ----- the rules and the stage-1 entries

  predicate Present(rules: Rules, k: nat, e: TcamEntry) {
    k < ACL_TABLE_SIZE && rules[k].valid && EntryOf(rules[k]) == e
  }

  /** The live entries of stage 1 are exactly the entries of the valid rules, in the order of their ids. */
  ghost predicate AclInv(s: AclState, l: seq<TcamEntry>) {
    && Increasing(l)
    && (forall e :: e in l ==> exists k :: Present(s.rules, k, e))
    && (forall k :: 0 <= k < ACL_TABLE_SIZE && s.rules[k].valid ==> EntryOf(s.rules[k]) in l)
    && (forall j, k :: 0 <= j < k < ACL_TABLE_SIZE && s.rules[j].valid && s.rules[k].valid ==>
      s.rules[j].id != s.rules[k].id)
  }

  predicate HasRule(s: AclState, id: uint16) {
    exists k :: 0 <= k < ACL_TABLE_SIZE && s.rules[k].valid && s.rules[k].id == id
  }

  /** The next id comes after those of all valid rules. */
  predicate InOrder(s: AclState) {
    forall k :: 0 <= k < ACL_TABLE_SIZE && s.rules[k].valid ==> s.rules[k].id < s.nextId
  }

  /** Nothing will be installed, for want of a slot or of a record, or what is installed comes last. */
  predicate AddFits(s: AclState, d: Db) {
    FreeFrom(s.rules, 0).None? || (|d| >= TCAM_MAX && !HasRule(s, s.nextId)) || InOrder(s)
  }

  /** So many rule ids have been issued, the valid rules' among them. */
  predicate Issued(s: AclState, issued: nat) {
    && s.nextId == issued % 65536
    && forall k :: 0 <= k < ACL_TABLE_SIZE && s.rules[k].valid ==> s.rules[k].id < issued
  }

  lemma EntryId(r: Rule)
    ensures EntryOf(r).tableId == r.id && EntryOf(r).stage == ACL_STAGE
  {
  }

  lemma HasEntryIffHasRule(s: AclState, l: seq<TcamEntry>, id: uint16)
    requires AclInv(s, l)
    ensures Has(l, id) <==> HasRule(s, id)
  {
    forall k | 0 <= k < ACL_TABLE_SIZE ensures EntryOf(s.rules[k]).tableId == s.rules[k].id { EntryId(s.rules[k]); }
    hide EntryOf, Increasing;
    if Has(l, id) {
      var i :| 0 <= i < |l| && l[i].tableId == id;
      assert l[i] in l;
      var k :| Present(s.rules, k, l[i]);
    }
    if HasRule(s, id) {
      var k :| 0 <= k < ACL_TABLE_SIZE && s.rules[k].valid && s.rules[k].id == id;
      assert EntryOf(s.rules[k]) in l;
      var i :| 0 <= i < |l| && l[i] == EntryOf(s.rules[k]);
    }
  }

  /** An addition keeps the entries equal to the rules, in the order of their ids, if and only if nothing is installed
      or the new id comes after those of the valid rules: the 16-bit id starts over some time. */
  lemma AddKeepsInvIff(s: AclState, d: Db, r: Rule)
    requires AclInv(s, LiveOf(d, ACL_STAGE))
    ensures var a := Add(s, d, r); AclInv(a.1, LiveOf(a.2, ACL_STAGE)) <==> AddFits(s, d)
  {
    hide Insert, LiveOf, Upserted, FreeFrom, EntryOf, AclInv, HasRule, InOrder, Has;
    var k := FreeFrom(s.rules, 0);
    if k.Some? {
      var rule, l := r.(valid := true, id := s.nextId), LiveOf(d, ACL_STAGE);
      var e := EntryOf(rule);
      EntryId(rule);
      InsertPerStage(d, e, ACL_STAGE);
      InsertTakenIff(d, e);
      HasEntryIffHasRule(s, l, s.nextId);
      if Insert(d, e).0 == HalOk {
        InstallKeepsInvIff(s, l, k.value, rule);
      } else {
        UnfilledSlot(s, l, k.value, rule.(valid := false));
      }
    }
  }

  lemma AddStays(s: AclState, d: Db, r: Rule)
    ensures forall stage: uint8 :: stage != ACL_STAGE ==> LiveOf(Add(s, d, r).2, stage) == LiveOf(d, stage)
  {
    hide Insert, LiveOf, FreeFrom, EntryOf;
    EntryId(r.(valid := true, id := s.nextId));
    InsertOtherStages(d, EntryOf(r.(valid := true, id := s.nextId)));
  }

  lemma RemoveStays(s: AclState, d: Db, id: uint16)
    ensures forall stage: uint8 :: stage != ACL_STAGE ==> LiveOf(Remove(s, d, id).2, stage) == LiveOf(d, stage)
  {
    hide Delete, LiveOf, SlotFrom;
    DeleteOtherStages(d, ACL_STAGE, id);
  }

  lemma InsertTakenIff(d: Db, e: TcamEntry)
    ensures Insert(d, e).0 == HalOk <==> |d| < 512 || Has(LiveOf(d, e.stage), e.tableId)
  {
    FindIffHas(d, e.stage, e.tableId);
    hide LiveOf, Has;
  }

  lemma InstallKeepsInvIff(s: AclState, l: seq<TcamEntry>, k: nat, rule: Rule)
    requires AclInv(s, l) && k < ACL_TABLE_SIZE && !s.rules[k].valid && rule.valid && rule.id == s.nextId
    ensures AclInv(AclState(s.rules[k := rule], (s.nextId + 1) % 65536), Upserted(l, EntryOf(rule))) <==> InOrder(s)
  {
    hide Upserted, AclInv, EntryOf, Has;
    EntryId(rule);
    HasEntryIffHasRule(s, l, rule.id);
    var s' := AclState(s.rules[k := rule], (s.nextId + 1) % 65536);
    if HasRule(s, rule.id) {
      SameIdTwice(s, s', Upserted(l, EntryOf(rule)), k);
    } else {
      UpsertAppends(l, EntryOf(rule));
      if InOrder(s) { AppendRule(s, l, k, rule); } else { OutOfOrder(s, s', l, rule); }
    }
  }

  lemma SameIdTwice(s: AclState, s': AclState, l: seq<TcamEntry>, k: nat)
    requires k < ACL_TABLE_SIZE && !s.rules[k].valid && s'.rules[k].valid && s'.rules == s.rules[k := s'.rules[k]]
    requires HasRule(s, s'.rules[k].id)
    ensures !AclInv(s', l)
  {
    hide EntryOf, Increasing;
    var j :| 0 <= j < ACL_TABLE_SIZE && s.rules[j].valid && s.rules[j].id == s'.rules[k].id;
    assert s'.rules[j] == s.rules[j];
  }

  lemma OutOfOrder(s: AclState, s': AclState, l: seq<TcamEntry>, rule: Rule)
    requires AclInv(s, l) && rule.id == s.nextId && !InOrder(s) && !HasRule(s, rule.id)
    ensures !AclInv(s', l + [EntryOf(rule)])
  {
    var j :| 0 <= j < ACL_TABLE_SIZE && s.rules[j].valid && s.rules[j].id >= s.nextId;
    EntryId(rule);
    EntryId(s.rules[j]);
    hide EntryOf;
    var i :| 0 <= i < |l| && l[i] == EntryOf(s.rules[j]);
    var l' := l + [EntryOf(rule)];
    assert l'[i].tableId > l'[|l|].tableId;
  }

  /** While fewer than 65536 ids have been issued, the ids are in order. */
  lemma FewIdsAreInOrder(s: AclState, issued: nat)
    requires Issued(s, issued) && issued < 65536
    ensures InOrder(s)
  {
  }

  lemma AddKeepsInv(s: AclState, d: Db, issued: nat, r: Rule)
    requires AclInv(s, LiveOf(d, ACL_STAGE)) && Issued(s, issued) && issued < 65536
    ensures var a := Add(s, d, r);
      && AclInv(a.1, LiveOf(a.2, ACL_STAGE))
      && Issued(a.1, if FreeFrom(s.rules, 0).Some? then issued + 1 else issued)
      && forall stage: uint8 :: stage != ACL_STAGE ==> LiveOf(a.2, stage) == LiveOf(d, stage)
  {
    hide AclInv, LiveOf;
    FewIdsAreInOrder(s, issued);
    AddKeepsInvIff(s, d, r);
    AddStays(s, d, r);
    AddIssues(s, d, issued, r);
    hide Add, Issued, InOrder;
  }

  lemma AddIssues(s: AclState, d: Db, issued: nat, r: Rule)
    requires Issued(s, issued) && issued < 65536
    ensures Issued(Add(s, d, r).1, if FreeFrom(s.rules, 0).Some? then issued + 1 else issued)
  {
    hide Insert, EntryOf, FreeFrom;
  }

  lemma RemoveIssues(s: AclState, d: Db, issued: nat, id: uint16)
    requires Issued(s, issued)
    ensures Issued(Remove(s, d, id).1, issued)
  {
    hide Delete, SlotFrom;
  }

  lemma AppendRule(s: AclState, l: seq<TcamEntry>, k: nat, rule: Rule)
    requires AclInv(s, l) && InOrder(s)
    requires k < ACL_TABLE_SIZE && !s.rules[k].valid && rule.valid && rule.id == s.nextId
    ensures AclInv(AclState(s.rules[k := rule], (s.nextId + 1) % 65536), l + [EntryOf(rule)])
  {
    var e := EntryOf(rule);
    EntryId(rule);
    forall x | x in l ensures x.tableId < e.tableId {
      var j: nat :| Present(s.rules, j, x);
      EntryId(s.rules[j]);
    }
    AppendIncreases(l, e);
    hide EntryOf, Increasing;
    var rules' := s.rules[k := rule];
    var l' := l + [e];
    assert l'[|l|] == e && forall x :: x in l' <==> x in l || x == e;
    forall x | x in l' ensures exists j :: Present(rules', j, x) {
      if x == e {
        assert Present(rules', k, x);
      } else {
        var j :| Present(s.rules, j, x);
        assert Present(rules', j, x);
      }
    }
  }

  lemma AppendIncreases(l: seq<TcamEntry>, e: TcamEntry)
    requires Increasing(l) && forall x :: x in l ==> x.tableId < e.tableId
    ensures Increasing(l + [e])
  {
  }

  lemma UnfilledSlot(s: AclState, l: seq<TcamEntry>, k: nat, rule: Rule)
    requires AclInv(s, l)
    requires k < ACL_TABLE_SIZE && !s.rules[k].valid && !rule.valid
    ensures AclInv(AclState(s.rules[k := rule], (s.nextId + 1) % 65536), l)
  {
    hide EntryOf;
    var rules' := s.rules[k := rule];
    forall e | e in l ensures exists j :: Present(rules', j, e) {
      var j :| Present(s.rules, j, e);
      assert Present(rules', j, e);
    }
  }

  lemma RemoveKeepsInv(s: AclState, d: Db, id: uint16)
    requires AclInv(s, LiveOf(d, ACL_STAGE))
    ensures var a := Remove(s, d, id);
      && AclInv(a.1, LiveOf(a.2, ACL_STAGE)) && (a.0 == HalOk <==> HasRule(s, id))
      && forall stage: uint8 :: stage != ACL_STAGE ==> LiveOf(a.2, stage) == LiveOf(d, stage)
  {
    hide Delete, LiveOf, Removed, EntryOf;
    RemoveStays(s, d, id);
    var k := SlotFrom(s.rules, id, 0);
    if k.Some? {
      DeletePerStage(d, ACL_STAGE, id, ACL_STAGE);
      EntryId(s.rules[k.value]);
      assert Has(LiveOf(d, ACL_STAGE), id);
      DropRule(s, LiveOf(d, ACL_STAGE), k.value);
    }
  }

  lemma DropRule(s: AclState, l: seq<TcamEntry>, k: nat)
    requires AclInv(s, l)
    requires k < ACL_TABLE_SIZE && s.rules[k].valid
    ensures AclInv(s.(rules := s.rules[k := s.rules[k].(valid := false)]), Removed(l, s.rules[k].id))
  {
    hide EntryOf, Removed;
    var id := s.rules[k].id;
    var rules' := s.rules[k := s.rules[k].(valid := false)];
    RemovedIncreasing(l, id);
    RemovedMembers(l, id);
    forall j | 0 <= j < ACL_TABLE_SIZE ensures EntryOf(s.rules[j]).tableId == s.rules[j].id { EntryId(s.rules[j]); }
    forall e | e in Removed(l, id) ensures exists j :: Present(rules', j, e) {
      var j :| Present(s.rules, j, e);
      assert Present(rules', j, e);
    }
  }

  // ----- the bytes of a rule's entry, and its masked values

  function RuleKey(r: Rule): KeyBytes {
    if r.deny then Pad(Be32(r.srcIp) + Be32(r.dstIp) + Be16Bytes(r.dport)) else Pad(Be32(r.srcIp) + Be32(r.dstIp))
  }

  function RuleMask(r: Rule): KeyBytes {
    if r.deny then Pad(Be32(r.srcMask) + Be32(r.dstMask) + PortMask(r.dport))
    else Pad(Be32(r.srcMask) + Be32(r.dstMask))
  }

  function PacketKey(p: Phv): KeyBytes { Pad(KeyBytesOf(p, ACL_STAGE)) }

  lemma PadLayout(a: seq<uint8>, b: seq<uint8>, t: seq<uint8>)
    requires |a| == |b| == 4 && |t| <= 2
    ensures var p := Pad(a + b + t); p[0..4] == a && p[4..8] == b && p[8..8 + |t|] == t
  {
  }

  lemma AddressBytes(r: Rule)
    ensures ReadBe32(RuleKey(r), 0) == r.srcIp && ReadBe32(RuleKey(r), 4) == r.dstIp
    ensures ReadBe32(RuleMask(r), 0) == r.srcMask && ReadBe32(RuleMask(r), 4) == r.dstMask
  {
    hide ReadBe32, Be32, Pad;
    PadLayout(Be32(r.srcIp), Be32(r.dstIp), if r.deny then Be16Bytes(r.dport) else []);
    PadLayout(Be32(r.srcMask), Be32(r.dstMask), if r.deny then PortMask(r.dport) else []);
    assert Be32(r.srcIp) + Be32(r.dstIp) + [] == Be32(r.srcIp) + Be32(r.dstIp);
    assert Be32(r.srcMask) + Be32(r.dstMask) + [] == Be32(r.srcMask) + Be32(r.dstMask);
    Be32RoundTrip(RuleKey(r), 0, r.srcIp);
    Be32RoundTrip(RuleKey(r), 4, r.dstIp);
    Be32RoundTrip(RuleMask(r), 0, r.srcMask);
    Be32RoundTrip(RuleMask(r), 4, r.dstMask);
  }

  lemma PortBytes(r: Rule)
    requires r.deny
    ensures RuleKey(r)[8] == r.dport / 256 && RuleKey(r)[9] == r.dport % 256
    ensures RuleMask(r)[8] == RuleMask(r)[9] == if r.dport != 0 then 0xFF else 0
  {
    hide Be32, Pad;
    PadLayout(Be32(r.srcIp), Be32(r.dstIp), Be16Bytes(r.dport));
    PadLayout(Be32(r.srcMask), Be32(r.dstMask), PortMask(r.dport));
    assert RuleKey(r)[8..10][0] == RuleKey(r)[8] && RuleKey(r)[8..10][1] == RuleKey(r)[9];
    assert RuleMask(r)[8..10][0] == RuleMask(r)[8] && RuleMask(r)[8..10][1] == RuleMask(r)[9];
  }

  lemma PacketBytes(p: Phv)
    ensures ReadBe32(PacketKey(p), 0) == Src(p) && ReadBe32(PacketKey(p), 4) == Dst(p)
    ensures PacketKey(p)[8] == p.hdr[OFF_TCP_DPORT] && PacketKey(p)[9] == p.hdr[OFF_TCP_DPORT + 1]
  {
    hide ReadBe32, Pad;
    var port := Slice(p.hdr, OFF_TCP_DPORT, 2);
    PadLayout(Slice(p.hdr, OFF_IPV4_SRC, 4), Slice(p.hdr, OFF_IPV4_DST, 4), port);
    SameFourBytes(PacketKey(p), 0, p.hdr, OFF_IPV4_SRC);
    SameFourBytes(PacketKey(p), 4, p.hdr, OFF_IPV4_DST);
    assert PacketKey(p)[8..10][0] == port[0] && PacketKey(p)[8..10][1] == port[1];
  }

  lemma PortAgrees(k: KeyBytes, r: Rule)
    requires r.deny
    ensures BytesAgree(k, RuleKey(r), RuleMask(r), 8, 2)
       <==> (r.dport != 0 ==> k[8] == r.dport / 256 && k[9] == r.dport % 256)
  {
    PortBytes(r);
    Byte8();
    hide RuleKey, RuleMask, And, Pow2;
    AndOnes(k[8], 8);
    AndOnes(k[9], 8);
    AndOnes(RuleKey(r)[8], 8);
    AndOnes(RuleKey(r)[9], 8);
    AndZero(k[8], 8);
    AndZero(k[9], 8);
    AndZero(RuleKey(r)[8], 8);
    AndZero(RuleKey(r)[9], 8);
  }

  lemma MatchSplits(r: Rule, k: KeyBytes)
    ensures EntryMatches(EntryOf(r), k, 10) <==>
      && BytesAgree(k, RuleKey(r), RuleMask(r), 0, 4) && BytesAgree(k, RuleKey(r), RuleMask(r), 4, 4)
      && (r.deny ==> BytesAgree(k, RuleKey(r), RuleMask(r), 8, 2))
  {
    var e := EntryOf(r);
    assert e.key.bytes == RuleKey(r) && e.mask.bytes == RuleMask(r);
    hide EntryOf, RuleKey, RuleMask, And8;
    assert forall b :: 0 <= b < 64 ==>
      ByteMatches(e, k, b) == (And8(k[b], RuleMask(r)[b]) == And8(RuleKey(r)[b], RuleMask(r)[b]));
    hide ByteMatches;
  }

  /** The bytewise match of a rule's entry is the comparison of its addresses under their 32-bit masks, and of its port
      when it names one. */
  lemma EntryMatchesIffRuleMatches(r: Rule, p: Phv)
    ensures EntryMatches(EntryOf(r), PacketKey(p), 10) <==> RuleMatches(r, Src(p), Dst(p), Dport(p))
  {
    var k := PacketKey(p);
    MatchSplits(r, k);
    AddressBytes(r);
    PacketBytes(p);
    MaskedWord(k, RuleKey(r), RuleMask(r), 0);
    MaskedWord(k, RuleKey(r), RuleMask(r), 4);
    if r.deny { PortAgrees(k, r); }
    PortValue(p, r.dport);
    hide EntryMatches, BytesAgree, ReadBe32, ReadBe16, RuleKey, RuleMask, And32, EntryOf;
  }

  lemma PortValue(p: Phv, v: uint16)
    ensures Dport(p) == v <==> p.hdr[OFF_TCP_DPORT] == v / 256 && p.hdr[OFF_TCP_DPORT + 1] == v % 256
  {
    var hi: int, lo: int := p.hdr[OFF_TCP_DPORT], p.hdr[OFF_TCP_DPORT + 1];
    assert Dport(p) == hi * 256 + lo;
  }

  /** The first matching entry of stage 1 belongs to the rule that decides. */
  lemma FirstMatchDecides(s: AclState, l: seq<TcamEntry>, p: Phv)
    requires AclInv(s, l)
    ensures match FirstMatch(l, PacketKey(p), 10)
      case None => !exists k: nat :: Decides(s.rules, k, Src(p), Dst(p), Dport(p))
      case Some(e) => exists k: nat :: Present(s.rules, k, e) && Decides(s.rules, k, Src(p), Dst(p), Dport(p))
  {
    var key := PacketKey(p);
    FirstMatchIsMember(l, key, 10);
    FirstMatchIsLeast(l, key, 10);
    forall k: nat | k < ACL_TABLE_SIZE
      ensures EntryMatches(EntryOf(s.rules[k]), key, 10) <==> RuleMatches(s.rules[k], Src(p), Dst(p), Dport(p))
      ensures EntryOf(s.rules[k]).tableId == s.rules[k].id
    {
      EntryMatchesIffRuleMatches(s.rules[k], p);
      EntryId(s.rules[k]);
    }
    hide EntryMatches, EntryOf, RuleMatches, Increasing, FirstMatch, PacketKey, Src, Dst, Dport;
    var m := FirstMatch(l, key, 10);
    if m.Some? {
      var k :| Present(s.rules, k, m.value);
      assert Decides(s.rules, k, Src(p), Dst(p), Dport(p));
    }
  }

  /** After any run that keeps the invariant, stage 1 drops a packet exactly when the valid rule with the smallest id
      among those that match its addresses and port is a deny rule, and otherwise leaves the packet as it is. */
  lemma StageOneDecides(s: AclState, d: seq<Rec>, p: Phv)
    requires AclInv(s, LiveOf(d, ACL_STAGE))
    ensures Step(d, p, ACL_STAGE) == if Denied(s.rules, Src(p), Dst(p), Dport(p)) then p.(drop := true) else p
  {
    var l := LiveOf(d, ACL_STAGE);
    LookupIsFirstMatch(d, ACL_STAGE, PacketKey(p), 10);
    FirstMatchDecides(s, l, p);
    assert |KeyBytesOf(p, ACL_STAGE)| == 10;
    hide EntryOf, RuleMatches, Increasing, Lookup, FirstMatch, LiveOf, Decides, Applied;
    hide Pad, KeyBytesOf, Src, Dst, Dport;
    var m := FirstMatch(l, PacketKey(p), 10);
    if m.Some? {
      var k: nat :| Present(s.rules, k, m.value) && Decides(s.rules, k, Src(p), Dst(p), Dport(p));
      OnlyOneDecides(s, p, k);
      ActionOf(s.rules[k], p);
    }
  }

  lemma OnlyOneDecides(s: AclState, p: Phv, k: nat)
    requires forall i, j :: 0 <= i < j < ACL_TABLE_SIZE && s.rules[i].valid && s.rules[j].valid ==>
      s.rules[i].id != s.rules[j].id
    requires Decides(s.rules, k, Src(p), Dst(p), Dport(p))
    ensures Denied(s.rules, Src(p), Dst(p), Dport(p)) <==> s.rules[k].deny
  {
    hide RuleMatches;
  }

  lemma ActionOf(r: Rule, p: Phv)
    ensures Applied(p, EntryOf(r)) == if r.deny then p.(drop := true) else p
  {
    hide Be32, Pad;
  }

  // ----- what the calls achieve

  /** There is a slot and a record for one more rule. */
  predicate Takes(s: AclState, d: Db) {
    && (exists k :: 0 <= k < ACL_TABLE_SIZE && !s.rules[k].valid)
    && (|d| < TCAM_MAX || HasRule(s, s.nextId))
  }

  lemma FreeFromIff(rules: Rules, i: nat)
    requires i <= ACL_TABLE_SIZE
    ensures FreeFrom(rules, i).Some? <==> exists k :: i <= k < ACL_TABLE_SIZE && !rules[k].valid
    decreases ACL_TABLE_SIZE - i
  {
    if i < ACL_TABLE_SIZE && rules[i].valid { FreeFromIff(rules, i + 1); }
  }

  /** The valid rules are those of before and, in a slot that was free, one more. */
  ghost predicate OneMore(s: AclState, t: AclState, rule: Rule) {
    exists k :: 0 <= k < ACL_TABLE_SIZE && !s.rules[k].valid && rule.valid && t.rules == s.rules[k := rule]
  }

  /** The same rules are valid; what is left in free slots does not matter. */
  predicate SameValid(s: AclState, t: AclState) {
    forall k :: 0 <= k < ACL_TABLE_SIZE ==>
      t.rules[k].valid == s.rules[k].valid && (s.rules[k].valid ==> t.rules[k] == s.rules[k])
  }

  /** An addition installs exactly the rule given, under the next id, which it returns, or fails and installs nothing;
      the id is used up as soon as there is a slot. */
  lemma AddMeans(s: AclState, d: Db, r: Rule)
    requires AclInv(s, LiveOf(d, ACL_STAGE))
    ensures var (ret, t, _) := Add(s, d, r);
      && (if Takes(s, d) then ret == s.nextId && OneMore(s, t, r.(valid := true, id := s.nextId))
          else ret == -2 && SameValid(s, t))
      && t.nextId == if exists k :: 0 <= k < ACL_TABLE_SIZE && !s.rules[k].valid then (s.nextId + 1) % 65536
        else s.nextId
  {
    hide Insert, LiveOf, FreeFrom, EntryOf, AclInv, HasRule, Has;
    FreeFromIff(s.rules, 0);
    var k := FreeFrom(s.rules, 0);
    if k.Some? {
      var rule := r.(valid := true, id := s.nextId);
      EntryId(rule);
      InsertTakenIff(d, EntryOf(rule));
      HasEntryIffHasRule(s, LiveOf(d, ACL_STAGE), s.nextId);
      if Insert(d, EntryOf(rule)).0 == HalOk { assert Add(s, d, r).1.rules == s.rules[k.value := rule]; }
    }
  }

  /** A deletion takes the rule of the id away and no other, or fails and changes nothing. */
  lemma RemoveMeans(s: AclState, d: Db, id: uint16)
    requires AclInv(s, LiveOf(d, ACL_STAGE))
    ensures var (code, t, d') := Remove(s, d, id);
      && t.nextId == s.nextId
      && if HasRule(s, id) then
           && code == HalOk && !HasRule(t, id)
           && forall k :: 0 <= k < ACL_TABLE_SIZE ==>
                if s.rules[k].id == id then !t.rules[k].valid else t.rules[k] == s.rules[k]
         else code == HalInval && t == s && d' == d
  {
    hide Delete, LiveOf, AclInv;
    RemoveKeepsInv(s, d, id);
    OneRulePerId(s, LiveOf(d, ACL_STAGE));
  }

  lemma OneRulePerId(s: AclState, l: seq<TcamEntry>)
    requires AclInv(s, l)
    ensures forall j, k :: 0 <= j < k < ACL_TABLE_SIZE && s.rules[j].valid && s.rules[k].valid ==>
      s.rules[j].id != s.rules[k].id
  {
  }

  predicate SomeApplies(rules: Rules, src: uint32, dst: uint32, dport: uint16) {
    exists k :: 0 <= k < ACL_TABLE_SIZE && Applies(rules[k], src, dst, dport)
  }

  /** A rule that comes last decides about exactly the packets that no earlier rule applies to. */
  lemma NewRuleComesLast(s: AclState, t: AclState, rule: Rule, src: uint32, dst: uint32, dport: uint16)
    requires InOrder(s) && OneMore(s, t, rule) && rule.id == s.nextId
    ensures Denied(t.rules, src, dst, dport) <==>
      if SomeApplies(s.rules, src, dst, dport) then Denied(s.rules, src, dst, dport)
      else rule.deny && RuleMatches(rule, src, dst, dport)
  {
    hide RuleMatches;
    var k :| 0 <= k < ACL_TABLE_SIZE && !s.rules[k].valid && t.rules == s.rules[k := rule];
    forall j | 0 <= j < ACL_TABLE_SIZE && j != k ensures t.rules[j] == s.rules[j] {}
    if Applies(rule, src, dst, dport) && !SomeApplies(s.rules, src, dst, dport) {
      assert Decides(t.rules, k, src, dst, dport);
    }
    if Denied(s.rules, src, dst, dport) {
      var j: nat :| Decides(s.rules, j, src, dst, dport) && s.rules[j].deny;
      assert Decides(t.rules, j, src, dst, dport);
    }
    if Denied(t.rules, src, dst, dport) {
      var j: nat :| Decides(t.rules, j, src, dst, dport) && t.rules[j].deny;
      if j != k { assert Decides(s.rules, j, src, dst, dport); }
    }
  }

  /** So after a successful addition in order a packet is dropped at stage 1 exactly when it was before, or when no
      earlier rule applies to it and the new one denies it. */
  lemma AddTakesEffect(s: AclState, d: Db, r: Rule, p: Phv)
    requires AclInv(s, LiveOf(d, ACL_STAGE)) && InOrder(s) && Takes(s, d)
    ensures Step(Add(s, d, r).2, p, ACL_STAGE).drop <==>
      p.drop || if SomeApplies(s.rules, Src(p), Dst(p), Dport(p)) then Denied(s.rules, Src(p), Dst(p), Dport(p))
                else r.deny && RuleMatches(r, Src(p), Dst(p), Dport(p))
  {
    hide Step, AclInv, LiveOf, Takes, InOrder, RuleMatches, Src, Dst, Dport, Add, Denied, OneMore;
    AddKeepsInvIff(s, d, r);
    AddMeans(s, d, r);
    var (_, t, d') := Add(s, d, r);
    var rule := r.(valid := true, id := s.nextId);
    NewRuleComesLast(s, t, rule, Src(p), Dst(p), Dport(p));
    StageOneDecides(t, d', p);
    SameMatch(r, rule, Src(p), Dst(p), Dport(p));
  }

  lemma SameMatch(r: Rule, rule: Rule, src: uint32, dst: uint32, dport: uint16)
    requires rule == r.(valid := rule.valid, id := rule.id)
    ensures RuleMatches(rule, src, dst, dport) == RuleMatches(r, src, dst, dport)
  {
  }
}
