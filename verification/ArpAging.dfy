/** Aging of the ARP table: what every reachable entry looks like, and how long an unanswered table can last. */
module ArpAging {
  import opened Words
  import opened ArpTable
  import opened ArpRuns

  // ----- what every reachable table looks like

  predicate EntryWf(e: Entry) {
    match e.state
    case Free => e == ZERO
    case Incomplete => e.retry <= PROBE_RETRY_MAX
    case Reachable => e.retry == PROBE_RETRY_MAX && e.age == 0
    case Stale => e.retry == PROBE_RETRY_MAX && e.age == 0
  }

  ghost predicate Wf(t: Table) {
    forall s: Slot :: EntryWf(t[s])
  }

  /** The entry a slot moves to by its own clock when arp_age visits it. */
  function Evolve(e: Entry, now: uint32): Entry {
    match e.state
    case Free => e
    case Incomplete =>
      if Elapsed(now, e) < INCOMPLETE_TTL then e else if e.retry == 0 then ZERO else Retried(e, now)
    case Reachable => if Elapsed(now, e) < AGE_MAX then e else e.(state := Stale)
    case Stale =>
      if Elapsed(now, e) < AGE_MAX + INCOMPLETE_TTL || e.retry == 0 then e else Retried(e, now).(state := Incomplete)
  }

  /** The visit sends a probe. */
  predicate Fires(e: Entry, now: uint32) {
    e.retry > 0 &&
    ((e.state == Incomplete && Elapsed(now, e) >= INCOMPLETE_TTL) ||
     (e.state == Stale && Elapsed(now, e) >= AGE_MAX + INCOMPLETE_TTL))
  }

  function Fresh(e: Entry): Entry { Entry(e.ip, ZERO.mac, e.port, e.vlan, 0, PROBE_RETRY_MAX, Incomplete) }

  lemma FindFreeStopsEarly(t: Table, ip: uint32, i: Slot)
    requires Owns(t[i], ip)
    ensures var k := Find(t, ip, true);
      k.Some? && (t[k.value].state == Free ==> k.value != i && Dist(ip, k.value) < Dist(ip, i))
  {
    FindIsFirst(t, ip, true);
    assert Hit(t[i], ip, true);
    if Dist(ip, Find(t, ip, true).value) == Dist(ip, i) {
      ProbedIsAtDist(ip, Dist(ip, i), i);
      ProbedIsAtDist(ip, Dist(ip, i), Find(t, ip, true).value);
    }
  }

  /** Marking changes at most one slot: a free one, closer to the home of the address than any slot holding it. */
  lemma MarkShape(t: Table, e: Entry, i: Slot, j: Slot)
    requires Owns(t[i], e.ip) && EntryWf(t[j])
    ensures var u := Mark(t, e.ip, e.port, e.vlan);
      u[j] == t[j] || (j != i && t[j].state == Free && u[j] == Fresh(e) && Dist(e.ip, j) < Dist(e.ip, i))
  {
    FindFreeStopsEarly(t, e.ip, i);
  }

  lemma ProbeShape(n: Node, e: Entry, i: Slot, j: Slot)
    requires Owns(n.t[i], e.ip) && EntryWf(n.t[j])
    ensures var u := Probe(n, e.ip, e.port, e.vlan).1.t;
      u[j] == n.t[j] || (j != i && n.t[j].state == Free && u[j] == Fresh(e) && Dist(e.ip, j) < Dist(e.ip, i))
  {
    MarkShape(n.t, e, i, j);
  }

  /** A visit to slot `i` lets that slot evolve; another slot is only ever filled, ahead of `i` on the probe path. */
  lemma AgeSlotShape(n: Node, i: Slot, now: uint32, j: Slot)
    requires Wf(n.t)
    ensures var e, u := n.t[i], AgeSlot(n, i, now).t;
      if j == i then u[j] == Evolve(e, now)
      else u[j] == n.t[j] ||
           (Fires(e, now) && n.t[j].state == Free && u[j] == Fresh(e) && Dist(e.ip, j) < Dist(e.ip, i))
  {
    var e := n.t[i];
    assert EntryWf(e) && EntryWf(n.t[j]);
    if Fires(e, now) {
      FiringShape(n, i, now, j);
    }
  }

  lemma FiringShape(n: Node, i: Slot, now: uint32, j: Slot)
    requires EntryWf(n.t[i]) && EntryWf(n.t[j]) && Fires(n.t[i], now)
    ensures var e, u := n.t[i], AgeSlot(n, i, now).t;
      if j == i then u[j] == Evolve(e, now)
      else u[j] == n.t[j] || (n.t[j].state == Free && u[j] == Fresh(e) && Dist(e.ip, j) < Dist(e.ip, i))
  {
    var e := n.t[i];
    var m := n.(t := n.t[i := Retried(e, now)]);
    ProbeLeaves(m, e, i);
    if j != i { ProbeShape(m, e, i, j); }
  }

  lemma ProbeLeaves(n: Node, e: Entry, i: Slot)
    requires Owns(n.t[i], e.ip)
    ensures Probe(n, e.ip, e.port, e.vlan).1.t[i] == n.t[i]
  {
    FindFreeStopsEarly(n.t, e.ip, i);
  }

  lemma AgeSlotKeepsWf(n: Node, i: Slot, now: uint32)
    requires Wf(n.t)
    ensures Wf(AgeSlot(n, i, now).t)
  {
    forall j: Slot ensures EntryWf(AgeSlot(n, i, now).t[j]) {
      AgeSlotShape(n, i, now, j);
      assert EntryWf(n.t[j]) && EntryWf(n.t[i]);
    }
  }

  lemma {:induction false} AgeFromKeepsWf(n: Node, i: nat, now: uint32)
    requires Wf(n.t) && i <= TABLE_SIZE
    ensures Wf(AgeFrom(n, i, now).t)
    decreases TABLE_SIZE - i
  {
    if i < TABLE_SIZE {
      AgeSlotKeepsWf(n, i, now);
      AgeFromKeepsWf(AgeSlot(n, i, now), i + 1, now);
    }
  }

  lemma MarkKeepsWf(t: Table, ip: uint32, port: uint8, vlan: uint16)
    requires Wf(t)
    ensures Wf(Mark(t, ip, port, vlan))
  {
  }

  lemma StepKeepsWf(n: Node, op: Op)
    requires Wf(n.t)
    ensures Wf(Step(n, op).t)
  {
    match op
    case OpAge(now) => AgeFromKeepsWf(n, 0, now);
    case OpProbe(ip, port, vlan) => MarkKeepsWf(n.t, ip, port, vlan);
    case _ =>
  }

  /** In every reachable state REACHABLE and STALE entries have all retries left and a zero stamp. */
  lemma {:induction false} AlwaysWf(ops: seq<Op>)
    ensures Wf(Run(Initial(), ops).t)
  {
    if ops != [] {
      AlwaysWf(ops[..|ops| - 1]);
      StepKeepsWf(Run(Initial(), ops[..|ops| - 1]), ops[|ops| - 1]);
    }
  }

  /** So the branch of arp_age that deletes a STALE entry is never taken. */
  lemma StaleIsNeverDeleted(ops: seq<Op>, s: Slot)
    ensures var e := Run(Initial(), ops).t[s]; e.state == Stale ==> e.retry > 0
  {
    AlwaysWf(ops);
    assert EntryWf(Run(Initial(), ops).t[s]);
  }

  // ----- the remaining life of one entry

  function Next(now: uint32): uint32 { (now + 1) % TWO_32 }

  function Wait(e: Entry, next: uint32, limit: nat): nat {
    if Elapsed(next, e) >= limit then 0 else limit - Elapsed(next, e)
  }

  /** The number of one-second visits, the first at `next`, after which the entry has left its slot. */
  function Life(e: Entry, next: uint32): nat {
    match e.state
    case Free => 0
    case Incomplete => Wait(e, next, INCOMPLETE_TTL) + INCOMPLETE_TTL * e.retry + 1
    case Stale => Wait(e, next, AGE_MAX + INCOMPLETE_TTL) + 16
    case Reachable =>
      if next < AGE_MAX then 321 - next
      else if next == TWO_32 - 1 then 322
      else 17 + if next < AGE_MAX + 4 then AGE_MAX + 4 - next else 0
  }

  lemma LifeFalls(e: Entry, now: uint32)
    requires EntryWf(e) && e.state != Free
    ensures EntryWf(Evolve(e, now)) && Life(Evolve(e, now), Next(now)) == Life(e, now) - 1
    ensures e.ip == Evolve(e, now).ip || Evolve(e, now).state == Free
  {
    match e.state {
      case Incomplete => IncompleteLifeFalls(e, now);
      case Reachable =>
      case Stale => StaleLifeFalls(e, now);
      case Free =>
    }
  }

  lemma IncompleteLifeFalls(e: Entry, now: uint32)
    requires EntryWf(e) && e.state == Incomplete
    ensures Life(Evolve(e, now), Next(now)) == Life(e, now) - 1
  {
    ElapsedGrows(e, now);
    if Elapsed(now, e) >= INCOMPLETE_TTL && e.retry > 0 {
      ElapsedGrows(Retried(e, now), now);
    }
  }

  lemma StaleLifeFalls(e: Entry, now: uint32)
    requires EntryWf(e) && e.state == Stale
    ensures Life(Evolve(e, now), Next(now)) == Life(e, now) - 1
  {
    ElapsedGrows(e, now);
    ElapsedGrows(Retried(e, now), now);
  }

  lemma ElapsedGrows(e: Entry, now: uint32)
    ensures Elapsed(now, e) < TWO_32 - 1 ==> Elapsed(Next(now), e) == Elapsed(now, e) + 1
  {
  }

  /** The first visit to a reachable or stale entry comes as the clock reads zero, or, for a reachable one, just before.
      */
  predicate StartsAtZero(e: Entry, next: uint32) {
    (e.state == Reachable && (next == 0 || next == TWO_32 - 1)) || (e.state == Stale && next == 0)
  }

  /** An entry lasts at most 320 visits, unless the first one comes at clock zero or just before it. */
  lemma LifeWithin320Iff(e: Entry, next: uint32)
    requires EntryWf(e)
    ensures Life(e, next) <= 320 <==> !StartsAtZero(e, next)
    ensures Life(e, next) <= 322
  {
  }

  function AgeMany(n: Node, now: uint32, calls: nat): Node
    decreases calls
  {
    if calls == 0 then n else AgeMany(Age(n, now), Next(now), calls - 1)
  }

  /** One pass over the table moves an entry by its own clock alone; only a slot that is free can be refilled. */
  lemma {:induction false} AgeFromAt(n: Node, i: nat, now: uint32, s: Slot)
    requires Wf(n.t) && i <= TABLE_SIZE && n.t[s].state != Free
    requires s >= i ==> Evolve(n.t[s], now).state != Free
    ensures AgeFrom(n, i, now).t[s] == if s < i then n.t[s] else Evolve(n.t[s], now)
    decreases TABLE_SIZE - i
  {
    if i < TABLE_SIZE {
      AgeSlotShape(n, i, now, s);
      AgeSlotKeepsWf(n, i, now);
      AgeFromAt(AgeSlot(n, i, now), i + 1, now, s);
    }
  }

  function EvolveMany(e: Entry, now: uint32, calls: nat): Entry
    decreases calls
  {
    if calls == 0 then e else EvolveMany(Evolve(e, now), Next(now), calls - 1)
  }

  /** Empty, or just filled by a probe for some entry farther along its own path. */
  predicate Vacated(e: Entry) { e == ZERO || e == Fresh(e) }

  lemma {:induction false} StaysVacated(n: Node, i: nat, now: uint32, s: Slot)
    requires Wf(n.t) && s < i <= TABLE_SIZE && Vacated(n.t[s])
    ensures Vacated(AgeFrom(n, i, now).t[s])
    decreases TABLE_SIZE - i
  {
    if i < TABLE_SIZE {
      AgeSlotShape(n, i, now, s);
      AgeSlotKeepsWf(n, i, now);
      StaysVacated(AgeSlot(n, i, now), i + 1, now, s);
    }
  }

  /** An entry whose own clock runs out in a pass is gone when the pass ends. */
  lemma {:induction false} PassVacates(n: Node, i: nat, now: uint32, s: Slot)
    requires Wf(n.t) && i <= s && n.t[s].state != Free && Evolve(n.t[s], now) == ZERO
    ensures Vacated(AgeFrom(n, i, now).t[s])
    decreases TABLE_SIZE - i
  {
    AgeSlotShape(n, i, now, s);
    AgeSlotKeepsWf(n, i, now);
    hide AgeSlot, Evolve, Wf;
    if i < s {
      PassVacates(AgeSlot(n, i, now), i + 1, now, s);
    } else {
      StaysVacated(AgeSlot(n, i, now), i + 1, now, s);
    }
  }

  lemma {:induction false} HoldsBefore(n: Node, now: uint32, calls: nat, s: Slot)
    requires Wf(n.t) && n.t[s].state != Free && calls < Life(n.t[s], now)
    ensures var e := AgeMany(n, now, calls).t[s];
      e == EvolveMany(n.t[s], now, calls) && e.state != Free && e.ip == n.t[s].ip
    decreases calls
  {
    hide Life, Evolve, Wf, Age, AgeMany, EvolveMany, Next;
    ManySteps(n, n.t[s], now, calls);
    if calls > 0 {
      OneVisit(n, now, s);
      HoldsBefore(Age(n, now), Next(now), calls - 1, s);
    }
  }

  lemma {:induction false} VacatesAfter(n: Node, now: uint32, s: Slot, calls: nat)
    requires Wf(n.t) && n.t[s].state != Free && calls == Life(n.t[s], now)
    ensures Vacated(AgeMany(n, now, calls).t[s])
    decreases calls
  {
    hide Life, Evolve, Wf, Age, AgeMany, EvolveMany, Next, Vacated;
    OneVisit(n, now, s);
    ManySteps(n, n.t[s], now, calls);
    if calls == 1 {
      LastCall(n, now, s);
    } else {
      VacatesAfter(Age(n, now), Next(now), s, calls - 1);
    }
  }

  /** A visit takes one off the life of the entry; unless that was the last, the slot holds what it evolved into. */
  lemma OneVisit(n: Node, now: uint32, s: Slot)
    requires Wf(n.t) && n.t[s].state != Free
    ensures Wf(Age(n, now).t) && Life(n.t[s], now) >= 1
    ensures Life(n.t[s], now) == 1 ==> Evolve(n.t[s], now).state == Free
    ensures Life(n.t[s], now) > 1 ==>
      var f := Age(n, now).t[s];
      f == Evolve(n.t[s], now) && f.state != Free && f.ip == n.t[s].ip && Life(f, Next(now)) == Life(n.t[s], now) - 1
  {
    var e := n.t[s];
    assert EntryWf(e);
    hide Wf, Age;
    LifeFalls(e, now);
    var f := Evolve(e, now);
    OnlyFreeHasNoLife(f, Next(now));
    hide Life, Evolve, EntryWf;
    AgeKeepsWf(n, now);
    if f.state != Free { AgeAt(n, now, s); }
  }

  /** With no packets in between, an entry keeps its slot for exactly its life, whatever the other slots do: before that
      the slot holds the evolved entry, and at that call the entry is gone. */
  lemma EntryLastsItsLife(n: Node, now: uint32, calls: nat, s: Slot)
    requires Wf(n.t) && n.t[s].state != Free
    ensures calls < Life(n.t[s], now) ==>
      var e := AgeMany(n, now, calls).t[s];
      e == EvolveMany(n.t[s], now, calls) && e.state != Free && e.ip == n.t[s].ip
    ensures calls == Life(n.t[s], now) ==> EvolveMany(n.t[s], now, calls) == ZERO
    ensures calls == Life(n.t[s], now) ==> Vacated(AgeMany(n, now, calls).t[s])
  {
    assert EntryWf(n.t[s]);
    hide Life, Wf, AgeMany, EvolveMany, Vacated, EntryWf;
    if calls < Life(n.t[s], now) {
      HoldsBefore(n, now, calls, s);
    } else if calls == Life(n.t[s], now) {
      EvolvesToZero(n.t[s], now);
      VacatesAfter(n, now, s, calls);
    }
  }

  lemma ManySteps(n: Node, e: Entry, now: uint32, calls: nat)
    ensures calls == 0 ==> AgeMany(n, now, calls) == n && EvolveMany(e, now, calls) == e
    ensures calls > 0 ==>
      && AgeMany(n, now, calls) == AgeMany(Age(n, now), Next(now), calls - 1)
      && EvolveMany(e, now, calls) == EvolveMany(Evolve(e, now), Next(now), calls - 1)
  {
  }

  lemma AgeKeepsWf(n: Node, now: uint32)
    requires Wf(n.t)
    ensures Wf(Age(n, now).t)
  {
    AgeFromKeepsWf(n, 0, now);
  }

  lemma AgeAt(n: Node, now: uint32, s: Slot)
    requires Wf(n.t) && n.t[s].state != Free && Evolve(n.t[s], now).state != Free
    ensures Age(n, now).t[s] == Evolve(n.t[s], now)
  {
    AgeFromAt(n, 0, now, s);
  }

  lemma OnlyFreeHasNoLife(e: Entry, next: uint32)
    requires EntryWf(e)
    ensures Life(e, next) == 0 <==> e.state == Free
  {
  }

  lemma LastCall(n: Node, now: uint32, s: Slot)
    requires Wf(n.t) && n.t[s].state != Free && Evolve(n.t[s], now).state == Free
    ensures Vacated(AgeMany(n, now, 1).t[s])
  {
    assert EntryWf(n.t[s]);
    LifeFalls(n.t[s], now);
    PassVacates(n, 0, now, s);
    hide AgeFrom, Evolve;
    assert AgeMany(Age(n, now), Next(now), 0) == Age(n, now);
  }

  lemma {:induction false} EvolvesToZero(e: Entry, now: uint32)
    requires EntryWf(e)
    ensures EvolveMany(e, now, Life(e, now)) == ZERO
    decreases Life(e, now)
  {
    if e.state != Free {
      LifeFalls(e, now);
      EvolvesToZero(Evolve(e, now), Next(now));
    }
  }

  /** In every reachable table an entry that no packet refreshes leaves its slot after 320 calls, one second apart, at
      the latest, unless the first call comes at clock zero or just before it; then it takes up to two calls more. */
  lemma LeavesWithin320Iff(ops: seq<Op>, now: uint32, s: Slot) returns (calls: nat)
    requires Run(Initial(), ops).t[s].state != Free
    ensures var n := Run(Initial(), ops);
      && (calls <= 320 <==> !StartsAtZero(n.t[s], now)) && calls <= 322
      && Vacated(AgeMany(n, now, calls).t[s])
      && forall k :: 0 <= k < calls ==> StillThere(n, now, k, s)
  {
    var n := Run(Initial(), ops);
    AlwaysWf(ops);
    assert EntryWf(n.t[s]);
    calls := Life(n.t[s], now);
    LifeWithin320Iff(n.t[s], now);
    EntryLastsItsLife(n, now, calls, s);
    hide Run, AgeMany, Life, EvolveMany;
    forall k | 0 <= k < calls ensures StillThere(n, now, k, s) {
      EntryLastsItsLife(n, now, k, s);
    }
  }

  /** After `k` calls the slot still holds the entry, in use and for the same address. */
  predicate StillThere(n: Node, now: uint32, k: nat, s: Slot) {
    var e := AgeMany(n, now, k).t[s];
    e.state != Free && e.ip == n.t[s].ip && e == EvolveMany(n.t[s], now, k)
  }

  // ----- the whole table drains

  /** Bounds the visits until the entry, and every entry its probes give rise to, is gone: each entry a probe
      inserts lies closer to its home slot, and 16 visits per step of distance pay for its fresh retries. */
  function Bound(e: Entry, s: Slot, next: uint32): nat {
    if e.state == Free then 0 else Life(e, next) + 16 * Dist(e.ip, s)
  }

  ghost predicate Within(t: Table, next: uint32, k: nat) {
    forall s: Slot :: Bound(t[s], s, next) <= k
  }

  /** In the middle of a pass: slots before `i` are measured from the next second, the others from this one. */
  ghost predicate WithinPass(t: Table, i: nat, now: uint32, k: nat) {
    forall s: Slot :: if s < i then Bound(t[s], s, Next(now)) <= k else Bound(t[s], s, now) <= k + 1
  }

  lemma BoundFalls(e: Entry, s: Slot, now: uint32, k: nat)
    requires EntryWf(e) && Bound(e, s, now) <= k + 1
    ensures Bound(Evolve(e, now), s, Next(now)) <= k
  {
    if e.state != Free { LifeFalls(e, now); }
  }

  lemma FreshIsCheap(e: Entry, i: Slot, j: Slot, now: uint32, k: nat)
    requires EntryWf(e) && Fires(e, now) && Bound(e, i, now) <= k + 1
    requires Dist(e.ip, j) < Dist(e.ip, i)
    ensures Bound(Fresh(e), j, now) <= k && Bound(Fresh(e), j, Next(now)) <= k
  {
  }

  lemma AgeSlotKeepsWithin(n: Node, i: Slot, now: uint32, k: nat)
    requires Wf(n.t) && WithinPass(n.t, i, now, k)
    ensures WithinPass(AgeSlot(n, i, now).t, i + 1, now, k)
  {
    var u := AgeSlot(n, i, now).t;
    assert EntryWf(n.t[i]);
    forall j: Slot ensures if j < i + 1 then Bound(u[j], j, Next(now)) <= k else Bound(u[j], j, now) <= k + 1 {
      AgeSlotShape(n, i, now, j);
      if j == i {
        BoundFalls(n.t[i], i, now, k);
      } else if u[j] != n.t[j] {
        FreshIsCheap(n.t[i], i, j, now, k);
      }
    }
  }

  lemma {:induction false} AgeFromWithin(n: Node, i: nat, now: uint32, k: nat)
    requires i <= TABLE_SIZE && Wf(n.t) && WithinPass(n.t, i, now, k)
    ensures Within(AgeFrom(n, i, now).t, Next(now), k)
    decreases TABLE_SIZE - i
  {
    if i < TABLE_SIZE {
      AgeSlotKeepsWf(n, i, now);
      AgeSlotKeepsWithin(n, i, now, k);
      AgeFromWithin(AgeSlot(n, i, now), i + 1, now, k);
    }
  }

  ghost predicate Empty(t: Table) {
    forall s: Slot :: t[s] == ZERO
  }

  lemma AgeWithin(n: Node, now: uint32, k: nat)
    requires Wf(n.t) && Within(n.t, now, k + 1)
    ensures Wf(Age(n, now).t) && Within(Age(n, now).t, Next(now), k)
  {
    AgeFromWithin(n, 0, now, k);
    AgeFromKeepsWf(n, 0, now);
  }

  lemma WithinZeroIsEmpty(t: Table, now: uint32)
    requires Wf(t) && Within(t, now, 0)
    ensures Empty(t)
  {
    assert forall s: Slot :: EntryWf(t[s]) && Bound(t[s], s, now) == 0;
  }

  lemma {:induction false} DrainsWithin(n: Node, now: uint32, k: nat)
    requires Wf(n.t) && Within(n.t, now, k)
    ensures Empty(AgeMany(n, now, k).t)
    decreases k
  {
    hide Wf, Within, Age, Empty;
    if k == 0 {
      WithinZeroIsEmpty(n.t, now);
    } else {
      AgeWithin(n, now, k - 1);
      DrainsWithin(Age(n, now), Next(now), k - 1);
    }
  }

  const DRAIN_CALLS := 322 + 16 * 255

  /** With no incoming packets every reachable table is empty after 4402 calls of arp_age, one second apart. */
  lemma TableDrains(ops: seq<Op>, now: uint32)
    ensures Empty(AgeMany(Run(Initial(), ops), now, DRAIN_CALLS).t)
  {
    var n := Run(Initial(), ops);
    AlwaysWf(ops);
    forall s: Slot ensures Bound(n.t[s], s, now) <= DRAIN_CALLS {
      assert EntryWf(n.t[s]);
      LifeWithin320Iff(n.t[s], now);
    }
    DrainsWithin(n, now, DRAIN_CALLS);
  }
}
