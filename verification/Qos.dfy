/** The DSCP-to-queue map (sw/firmware/qos.c): a software map, its register mirror, and one table entry of stage 5 for
    each of the 64 code points. */
module Qos {
  import opened Words
  import opened Bits
  import opened Hal
  import opened SimHal
  import opened StageLists
  import opened PktModel
  import opened Csr

  const DSCP_COUNT: nat := 64
  const QUEUES_PER_PORT: uint8 := 8
  const DSCP_STAGE: uint8 := 5

  type Dscp = d: int | 0 <= d < 64
  type Queue = q: int | 0 <= q < 8
  type QueueMap = m: seq<Queue> | |m| == 64 witness seq(64, _ => 0)

  /** The rule of a code point: the six high bits of the byte decide, the two low ones do not matter. */
  function RuleFor(d: Dscp, q: uint8): TcamEntry {
    TcamEntry(TcamKey(Pad([d * 4]), 1), TcamKey(Pad([0xFC]), 1), ACTION_SET_PRIO, QueueParam(q), DSCP_STAGE, d)
  }

  function QueueParam(q: uint8): ParamBytes { [q] + seq(11, _ => 0) }

  /** The queues a code point is sent to after initialisation. */
  function DefaultQueue(d: Dscp): Queue {
    if d in {10, 12, 14} then 1
    else if d in {18, 20, 22} then 2
    else if d in {26, 28, 30} then 3
    else if d in {34, 36, 38} then 4
    else if d in {40, 46} then 5
    else if d == 48 then 6
    else if d == 56 then 7
    else 0
  }

  /** The default with the classes above `q` not assigned yet. */
  function DefaultUpTo(d: Dscp, q: Queue): Queue { if DefaultQueue(d) <= q then DefaultQueue(d) else 0 }

  function DefaultMap(): QueueMap { seq(64, i requires 0 <= i < 64 => DefaultQueue(i)) }

  /** The store after the first `n` rules have been installed, whatever the insertions returned. */
  function RulesInstalled(d: Db, m: QueueMap, n: nat): Db
    requires n <= DSCP_COUNT
  {
    if n == 0 then d else Insert(RulesInstalled(d, m, n - 1), RuleFor(n - 1, m[n - 1])).1
  }

  /** The software map, the register mirrors and the table store. */
  datatype QosState = QosState(queues: QueueMap, csr: Mirrors, d: Db)

  function MapInit(s: QosState): QosState {
    QosState(DefaultMap(), s.csr.(dscpMap := DefaultMap()), RulesInstalled(s.d, DefaultMap(), DSCP_COUNT))
  }

  function MapSet(s: QosState, dscp: uint8, q: uint8): (HalCode, QosState)
    requires Sized(s.csr)
  {
    if dscp >= 64 || q >= QUEUES_PER_PORT then (HalInval, s)
    else (HalOk, QosState(s.queues[dscp := q], s.csr.(dscpMap := s.csr.dscpMap[dscp := q]),
                          Insert(s.d, RuleFor(dscp, q)).1))
  }

  lemma AllClassesSet(m: seq<Queue>)
    requires |m| == 64 && forall d: Dscp :: m[d] == DefaultUpTo(d, 7)
    ensures m == DefaultMap()
  {
    hide DefaultQueue;
  }

  class QosMap {
    const hal: Store
    const csr: CsrFile
    const queue: array<Queue>

    ghost predicate Valid()
      reads hal
    {
      hal.Valid() && csr.Valid() && queue.Length == DSCP_COUNT
    }

    ghost function Value(): QosState
      reads hal, hal.db, csr.vlanMember, csr.vlanUntagged, csr.qosDscpMap, csr.vlanPvid, csr.vlanMode, queue
      requires Valid()
    {
      QosState(queue[..], csr.Value(), hal.Value())
    }

    constructor (store: Store, regs: CsrFile)
      requires store.Valid() && regs.Valid()
      ensures Valid() && hal == store && csr == regs && fresh(queue)
    {
      hal, csr := store, regs;
      queue := new Queue[DSCP_COUNT](_ => 0);
    }

    method InstallDscpRule(d: Dscp, q: Queue)
      requires Valid()
      modifies hal`n, hal.db
      ensures Valid() && hal.Value() == Insert(old(hal.Value()), RuleFor(d, q)).1
    {
      hide Insert;
      var code := hal.HalTcamInsert(RuleFor(d, q));
    }

    method QosDscpMapDefault()
      requires Valid()
      modifies queue
      ensures queue[..] == DefaultMap()
    {
      for d := 0 to DSCP_COUNT
        invariant forall i :: 0 <= i < d ==> queue[i] == 0
      {
        queue[d] := 0;
      }
      SetClass(10, 12, 14, 1);
      SetClass(18, 20, 22, 2);
      SetClass(26, 28, 30, 3);
      SetClass(34, 36, 38, 4);
      SetClass(40, 46, 46, 5);
      SetClass(48, 48, 48, 6);
      SetClass(56, 56, 56, 7);
      AllClassesSet(queue[..]);
    }

    /** The code points of one class, three at most. */
    method SetClass(a: Dscp, b: Dscp, c: Dscp, q: Queue)
      requires queue.Length == DSCP_COUNT && q > 0 && forall d: Dscp :: DefaultQueue(d) == q <==> d in {a, b, c}
      requires forall d: Dscp :: queue[d] == DefaultUpTo(d, q - 1)
      modifies queue
      ensures forall d: Dscp :: queue[d] == DefaultUpTo(d, q)
    {
      hide DefaultQueue;
      queue[a] := q;
      queue[b] := q;
      queue[c] := q;
    }

    method QosApplyDscpRules()
      requires Valid()
      modifies hal`n, hal.db, csr.qosDscpMap
      ensures Valid() && queue[..] == old(queue[..])
      ensures csr.Value() == old(csr.Value()).(dscpMap := queue[..])
      ensures hal.Value() == RulesInstalled(old(hal.Value()), queue[..], DSCP_COUNT)
    {
      hide Insert;
      for d := 0 to DSCP_COUNT
        invariant Valid() && queue[..] == old(queue[..])
        invariant csr.qosDscpMap[..d] == queue[..d]
        invariant csr.Value() == old(csr.Value()).(dscpMap := csr.qosDscpMap[..])
        invariant hal.Value() == RulesInstalled(old(hal.Value()), queue[..], d)
      {
        var code := csr.HalQosDscpMapSet(d, queue[d]);
        InstallDscpRule(d, queue[d]);
      }
    }

    method QosInit()
      requires Valid()
      modifies queue, hal`n, hal.db, csr.qosDscpMap
      ensures Valid() && queue[..] == DefaultMap()
      ensures csr.Value() == old(csr.Value()).(dscpMap := queue[..])
      ensures hal.Value() == RulesInstalled(old(hal.Value()), queue[..], DSCP_COUNT)
      ensures Value() == MapInit(old(Value()))
    {
      hide DefaultMap;
      QosDscpMapDefault();
      QosApplyDscpRules();
    }

    method QosDscpSet(dscp: uint8, q: uint8) returns (code: HalCode)
      requires Valid()
      modifies queue, hal`n, hal.db, csr.qosDscpMap
      ensures Valid() && (code, Value()) == MapSet(old(Value()), dscp, q)
      ensures code == if dscp >= 64 || q >= QUEUES_PER_PORT then HalInval else HalOk
      ensures code == HalInval ==>
        queue[..] == old(queue[..]) && csr.Value() == old(csr.Value()) && hal.Value() == old(hal.Value())
      ensures code == HalOk ==>
        && queue[..] == old(queue[..])[dscp := q]
        && csr.Value() == old(csr.Value()).(dscpMap := old(csr.qosDscpMap[..])[dscp := q])
        && hal.Value() == Insert(old(hal.Value()), RuleFor(dscp, q)).1
    {
      hide Insert;
      if dscp >= 64 || q >= QUEUES_PER_PORT { return HalInval; }
      queue[dscp] := q;
      var r := csr.HalQosDscpMapSet(dscp, q);
      InstallDscpRule(dscp, q);
      return HalOk;
    }
  }

  // ----- the map and the stage-5 entries

  /** The live entries of stage 5 below `n` are exactly the rules of the map; none lies outside the 64 code points. */
  ghost predicate RulesUpTo(m: QueueMap, l: seq<TcamEntry>, n: nat) {
    && UniqueIds(l)
    && (forall e :: e in l ==> e.tableId < 64 && (e.tableId < n ==> e == RuleFor(e.tableId, m[e.tableId])))
    && (forall d: Dscp :: d < n ==> RuleFor(d, m[d]) in l)
  }

  ghost predicate QosInv(m: QueueMap, l: seq<TcamEntry>) { RulesUpTo(m, l, 64) }

  lemma UpsertRule(m: QueueMap, l: seq<TcamEntry>, n: nat, d: Dscp, q: Queue)
    requires RulesUpTo(m, l, n) && d <= n
    ensures RulesUpTo(m[d := q], Upserted(l, RuleFor(d, q)), if d == n then n + 1 else n)
  {
    UpsertedMembers(l, RuleFor(d, q));
    hide UniqueIds, Upserted, Pad, QueueParam;
  }

  lemma InsertRule(d: Db, m: QueueMap, n: nat, k: Dscp, q: Queue)
    requires RulesUpTo(m, LiveOf(d, DSCP_STAGE), n) && k <= n
    requires Insert(d, RuleFor(k, q)).0 == HalOk
    ensures RulesUpTo(m[k := q], LiveOf(Insert(d, RuleFor(k, q)).1, DSCP_STAGE), if k == n then n + 1 else n)
  {
    hide Insert, LiveOf, Upserted, RulesUpTo;
    InsertPerStage(d, RuleFor(k, q), DSCP_STAGE);
    UpsertRule(m, LiveOf(d, DSCP_STAGE), n, k, q);
  }

  lemma InsertGrows(d: Db, e: TcamEntry)
    ensures |d| <= |Insert(d, e).1| <= |d| + 1
    ensures |d| < TCAM_MAX ==> Insert(d, e).0 == HalOk
  {
  }

  /** Installing the rules of a map, with room for them in the store, makes stage 5 agree with the map. */
  lemma {:induction false} InitEstablishes(d: Db, m: QueueMap, n: nat)
    requires n <= DSCP_COUNT && |d| + DSCP_COUNT <= TCAM_MAX && RulesUpTo(m, LiveOf(d, DSCP_STAGE), 0)
    ensures |RulesInstalled(d, m, n)| <= |d| + n
    ensures RulesUpTo(m, LiveOf(RulesInstalled(d, m, n), DSCP_STAGE), n)
    ensures forall stage: uint8 :: stage != DSCP_STAGE ==> LiveOf(RulesInstalled(d, m, n), stage) == LiveOf(d, stage)
  {
    if n > 0 {
      hide Insert, RulesUpTo;
      InitEstablishes(d, m, n - 1);
      var d' := RulesInstalled(d, m, n - 1);
      var e := RuleFor(n - 1, m[n - 1]);
      InsertGrows(d', e);
      InsertRule(d', m, n - 1, n - 1, m[n - 1]);
      assert m[n - 1 := m[n - 1]] == m;
      InsertOtherStages(d', e);
    }
  }

  /** Once initialised, changing a code point is never refused, however full the store is, and keeps the agreement. */
  lemma DscpSetKeepsInv(d: Db, m: QueueMap, k: Dscp, q: Queue)
    requires QosInv(m, LiveOf(d, DSCP_STAGE))
    ensures Insert(d, RuleFor(k, q)).0 == HalOk
    ensures QosInv(m[k := q], LiveOf(Insert(d, RuleFor(k, q)).1, DSCP_STAGE))
  {
    hide Insert, LiveOf;
    InsertPerStage(d, RuleFor(k, q), DSCP_STAGE);
    var l := LiveOf(d, DSCP_STAGE);
    assert RuleFor(k, m[k]) in l;
    var i :| 0 <= i < |l| && l[i] == RuleFor(k, m[k]);
    assert Has(l, k);
    InsertRule(d, m, 64, k, q);
  }

  /** Before the initialisation the entries of stage 5 say nothing but their code points. */
  lemma InsertKeepsIds(d: Db, m: QueueMap, m': QueueMap, k: Dscp, q: uint8)
    requires RulesUpTo(m, LiveOf(d, DSCP_STAGE), 0)
    ensures RulesUpTo(m', LiveOf(Insert(d, RuleFor(k, q)).1, DSCP_STAGE), 0)
  {
    var l := LiveOf(d, DSCP_STAGE);
    InsertPerStage(d, RuleFor(k, q), DSCP_STAGE);
    UpsertedMembers(l, RuleFor(k, q));
    hide Insert, LiveOf, Upserted, UniqueIds, Pad, QueueParam;
  }

  lemma {:induction false} InitKeepsIds(d: Db, m: QueueMap, m': QueueMap, n: nat)
    requires n <= DSCP_COUNT && RulesUpTo(m, LiveOf(d, DSCP_STAGE), 0)
    ensures RulesUpTo(m', LiveOf(RulesInstalled(d, m', n), DSCP_STAGE), 0)
    ensures forall stage: uint8 :: stage != DSCP_STAGE ==> LiveOf(RulesInstalled(d, m', n), stage) == LiveOf(d, stage)
  {
    if n > 0 {
      hide Insert, LiveOf, RuleFor;
      InitKeepsIds(d, m, m', n - 1);
      var d' := RulesInstalled(d, m', n - 1);
      InsertKeepsIds(d', m', m', n - 1, m'[n - 1]);
      RuleStage(n - 1, m'[n - 1]);
      InsertOtherStages(d', RuleFor(n - 1, m'[n - 1]));
    }
  }

  lemma RuleStage(d: Dscp, q: uint8)
    ensures RuleFor(d, q).stage == DSCP_STAGE
  {
  }

  function Mixed(m: QueueMap, m': QueueMap, n: nat): QueueMap
    requires n <= DSCP_COUNT
  {
    m'[..n] + m[n..]
  }

  /** Initialising once more is never refused either. */
  lemma {:induction false} ReinitKeepsInv(d: Db, m: QueueMap, m': QueueMap, n: nat)
    requires n <= DSCP_COUNT && QosInv(m, LiveOf(d, DSCP_STAGE))
    ensures QosInv(Mixed(m, m', n), LiveOf(RulesInstalled(d, m', n), DSCP_STAGE))
  {
    if n == 0 {
      assert Mixed(m, m', 0) == m;
    } else {
      hide Insert, QosInv, LiveOf, RuleFor;
      ReinitKeepsInv(d, m, m', n - 1);
      DscpSetKeepsInv(RulesInstalled(d, m', n - 1), Mixed(m, m', n - 1), n - 1, m'[n - 1]);
      assert Mixed(m, m', n - 1)[n - 1 := m'[n - 1]] == Mixed(m, m', n);
    }
  }

  // ----- what a packet experiences

  lemma HighSixBits(x: uint8)
    ensures And8(x, 0xFC) == x / 4 * 4
  {
    Byte8();
    AndOnes(x / 4, 6);
    assert And(x / 2, 126, 7) == 2 * And(x / 4, 63, 6);
    assert And(x, 252, 8) == 2 * And(x / 2, 126, 7);
  }

  lemma RuleBytes(d: Dscp, q: uint8)
    ensures var e := RuleFor(d, q); e.key.bytes[0] == d * 4 && e.mask.bytes[0] == 0xFC && e.key.len == 1
  {
  }

  lemma RuleMatchesIff(d: Dscp, q: uint8, key: KeyBytes)
    ensures EntryMatches(RuleFor(d, q), key, 1) <==> key[0] / 4 == d
  {
    HighSixBits(key[0]);
    HighSixBits(d * 4);
    RuleBytes(d, q);
    SameFours(key[0], d);
    hide And8, RuleFor;
    var e := RuleFor(d, q);
    assert EntryMatches(e, key, 1) <==> ByteMatches(e, key, 0);
  }

  lemma SameFours(x: nat, d: nat)
    ensures x / 4 * 4 == d * 4 / 4 * 4 <==> x / 4 == d
  {
  }

  /** Exactly one rule matches a packet, the one of the six high bits of its DSCP byte; so every packet that comes to
      stage 5 gets the queue the map holds for them, whatever the two low bits. */
  lemma StageFiveAssigns(m: QueueMap, d: seq<Rec>, p: Phv)
    requires QosInv(m, LiveOf(d, DSCP_STAGE))
    ensures var k: Dscp := p.hdr[OFF_IPV4_DSCP] / 4;
      && Step(d, p, DSCP_STAGE) == p.(qosPrio := m[k])
      && forall e :: e in LiveOf(d, DSCP_STAGE) ==>
        (EntryMatches(e, Pad(KeyBytesOf(p, 5)), 1) <==> e == RuleFor(k, m[k]))
  {
    var k: Dscp := p.hdr[OFF_IPV4_DSCP] / 4;
    var key := Pad(KeyBytesOf(p, 5));
    assert key[0] == p.hdr[OFF_IPV4_DSCP] && |KeyBytesOf(p, 5)| == 1;
    var l := LiveOf(d, DSCP_STAGE);
    LookupIsFirstMatch(d, DSCP_STAGE, key, 1);
    FirstMatchIsMember(l, key, 1);
    hide EntryMatches, LiveOf, FirstMatch, Lookup, Pad, UniqueIds, QueueParam;
    forall e | e in l ensures EntryMatches(e, key, 1) <==> e == RuleFor(k, m[k]) {
      RuleMatchesIff(e.tableId, m[e.tableId], key);
    }
    RuleActs(p, k, m[k]);
  }

  lemma RuleActs(p: Phv, k: Dscp, q: uint8)
    ensures Applied(p, RuleFor(k, q)) == p.(qosPrio := q)
  {
    hide Pad;
  }

  // ----- what the calls achieve

  /** Changing a code point changes the queue of that code point alone; it is refused exactly outside the ranges. */
  lemma MapSetMeans(s: QosState, dscp: uint8, q: uint8)
    requires Sized(s.csr)
    ensures var (code, t) := MapSet(s, dscp, q);
      && (code == HalOk <==> dscp < 64 && q < 8) && (code != HalOk ==> code == HalInval && t == s)
      && forall k: Dscp :: t.queues[k] == if code == HalOk && k == dscp then q else s.queues[k]
  {
    hide Insert, RuleFor;
  }

  /** From then on packets of that code point get the new queue, and all others the queue they had. */
  lemma MapSetTakesEffect(s: QosState, dscp: uint8, q: uint8, p: Phv)
    requires Sized(s.csr) && QosInv(s.queues, LiveOf(s.d, DSCP_STAGE)) && dscp < 64 && q < 8
    ensures Step(MapSet(s, dscp, q).1.d, p, DSCP_STAGE) ==
      p.(qosPrio := if p.hdr[19] / 4 == dscp then q else s.queues[p.hdr[19] / 4])
  {
    hide QosInv, Insert, RuleFor, LiveOf, Step;
    DscpSetKeepsInv(s.d, s.queues, dscp, q);
    StageFiveAssigns(s.queues[dscp := q], Insert(s.d, RuleFor(dscp, q)).1, p);
  }

  /** The default (RFC 4594 in outline): the three assured forwarding code points 8c + 2, 8c + 4 and 8c + 6 of the
      classes 1 to 4 go to the queue of their class, class selector 5 and expedited forwarding to queue 5, class
      selectors 6 and 7 to their own, and every other code point to queue 0. */
  lemma DefaultFollowsClasses(d: Dscp)
    ensures
      var major, rest := d / 8, d % 8;
      DefaultMap()[d] ==
        if 1 <= major <= 4 && rest in {2, 4, 6} then major
        else if d == 40 || d == 46 then 5
        else if major in {6, 7} && rest == 0 then major
        else 0
  {
  }
}
