/** The simulated table memory behind the firmware (sw/firmware/test/sim_hal.c): one append-only record array for all
    stages, entries updated in place, deletions leaving a tombstone, and the lookup of sw/firmware/test/pkt_model.c. */
module SimHal {
  import opened Words
  import opened Bits
  import opened Hal

  const TCAM_MAX: nat := 512

  /** A record in use; a deleted one keeps its slot. */
  datatype Rec = Rec(entry: TcamEntry, deleted: bool)

  type Db = d: seq<Rec> | |d| <= 512

  predicate Live(r: Rec, stage: uint8) { !r.deleted && r.entry.stage == stage }

  predicate Holds(r: Rec, stage: uint8, id: uint16) { Live(r, stage) && r.entry.tableId == id }

  /** The index of the first live record of a stage with a table id. */
  function Find(d: seq<Rec>, stage: uint8, id: uint16): (k: Option<nat>)
    ensures k.Some? ==> k.value < |d| && Holds(d[k.value], stage, id)
  {
    if d == [] then None
    else if Holds(d[0], stage, id) then Some(0)
    else
      var k := Find(d[1..], stage, id);
      if k.None? then None else Some(k.value + 1)
  }

  lemma {:induction false} FindIsFirst(d: seq<Rec>, stage: uint8, id: uint16, k: Option<nat>)
    requires k.Some? ==> k.value < |d| && Holds(d[k.value], stage, id)
    requires forall i :: 0 <= i < |d| && (k.Some? ==> i < k.value) ==> !Holds(d[i], stage, id)
    ensures Find(d, stage, id) == k
  {
    if d != [] && !Holds(d[0], stage, id) {
      FindIsFirst(d[1..], stage, id, if k.Some? then Some(k.value - 1) else None);
    }
  }

  function Insert(d: Db, e: TcamEntry): (HalCode, Db) {
    var k := Find(d, e.stage, e.tableId);
    if k.Some? then (HalOk, d[k.value := Rec(e, false)])
    else if |d| >= TCAM_MAX then (HalFull, d)
    else (HalOk, d + [Rec(e, false)])
  }

  function Delete(d: Db, stage: uint8, id: uint16): (HalCode, Db) {
    var k := Find(d, stage, id);
    if k.None? then (HalInval, d) else (HalOk, d[k.value := d[k.value].(deleted := true)])
  }

  // ----- the ternary lookup

  /** As many bytes are compared as both the entry and the packet key have. */
  function CmpLen(e: TcamEntry, keyLen: uint8): nat { if e.key.len > keyLen then keyLen else e.key.len }

  predicate ByteMatches(e: TcamEntry, key: KeyBytes, b: nat)
    requires b < MAX_KEY_LEN
  {
    And8(key[b], e.mask.bytes[b]) == And8(e.key.bytes[b], e.mask.bytes[b])
  }

  predicate EntryMatches(e: TcamEntry, key: KeyBytes, keyLen: uint8)
    requires keyLen <= 64
  {
    forall b :: 0 <= b < CmpLen(e, keyLen) ==> ByteMatches(e, key, b)
  }

  predicate RecMatches(r: Rec, stage: uint8, key: KeyBytes, keyLen: uint8)
    requires keyLen <= 64
  {
    Live(r, stage) && EntryMatches(r.entry, key, keyLen)
  }

  function Lookup(d: seq<Rec>, stage: uint8, key: KeyBytes, keyLen: uint8): Option<TcamEntry>
    requires keyLen <= 64
  {
    if d == [] then None
    else if RecMatches(d[0], stage, key, keyLen) then Some(d[0].entry)
    else Lookup(d[1..], stage, key, keyLen)
  }

  lemma {:induction false} LookupSkips(d: seq<Rec>, stage: uint8, key: KeyBytes, keyLen: uint8, k: nat)
    requires keyLen <= 64 && k <= |d|
    requires forall i :: 0 <= i < k ==> !RecMatches(d[i], stage, key, keyLen)
    ensures Lookup(d, stage, key, keyLen) == Lookup(d[k..], stage, key, keyLen)
  {
    if k > 0 {
      LookupSkips(d[1..], stage, key, keyLen, k - 1);
      assert d[1..][k - 1..] == d[k..];
    } else {
      assert d[0..] == d;
    }
  }

  class Store {
    const db: array<Rec>
    var n: nat

    ghost predicate Valid()
      reads this
    {
      db.Length == TCAM_MAX && n <= TCAM_MAX
    }

    ghost function Value(): Db
      reads this, db
      requires Valid()
    {
      db[..n]
    }

    constructor ()
      ensures Valid() && fresh(db) && Value() == []
    {
      var blank := TcamEntry(TcamKey(seq(64, _ => 0), 0), TcamKey(seq(64, _ => 0), 0), 0, seq(12, _ => 0), 0, 0);
      db := new Rec[TCAM_MAX](_ => Rec(blank, false));
      n := 0;
    }

    method SimTcamFind(stage: uint8, id: uint16) returns (k: Option<nat>)
      requires Valid()
      ensures k == Find(Value(), stage, id)
    {
      hide Holds;
      for i := 0 to n
        invariant forall j :: 0 <= j < i ==> !Holds(db[j], stage, id)
      {
        if Holds(db[i], stage, id) {
          FindIsFirst(Value(), stage, id, Some(i));
          return Some(i);
        }
      }
      FindIsFirst(Value(), stage, id, None);
      return None;
    }

    method HalTcamInsert(e: TcamEntry) returns (code: HalCode)
      requires Valid()
      modifies this`n, db
      ensures Valid() && (code, Value()) == Insert(old(Value()), e)
    {
      var k := SimTcamFind(e.stage, e.tableId);
      hide Find;
      if k.Some? {
        db[k.value] := Rec(e, false);
        return HalOk;
      }
      if n >= TCAM_MAX { return HalFull; }
      db[n] := Rec(e, false);
      n := n + 1;
      assert Value() == old(Value()) + [Rec(e, false)];
      return HalOk;
    }

    method HalTcamDelete(stage: uint8, id: uint16) returns (code: HalCode)
      requires Valid()
      modifies db
      ensures Valid() && (code, Value()) == Delete(old(Value()), stage, id)
    {
      var k := SimTcamFind(stage, id);
      hide Find;
      if k.None? { return HalInval; }
      db[k.value] := db[k.value].(deleted := true);
      return HalOk;
    }

    /** The first live record of the stage that matches. */
    method TcamTernaryLookup(stage: uint8, key: KeyBytes, keyLen: uint8) returns (m: Option<TcamEntry>)
      requires Valid() && keyLen <= 64
      ensures m == Lookup(Value(), stage, key, keyLen)
    {
      for i := 0 to n
        invariant forall j :: 0 <= j < i ==> !RecMatches(db[j], stage, key, keyLen)
      {
        var r := db[i];
        var match_ := Live(r, stage);
        if match_ { match_ := CompareBytes(r.entry, key, keyLen); }
        if match_ {
          LookupSkips(Value(), stage, key, keyLen, i);
          assert Value()[i..][0] == r;
          return Some(r.entry);
        }
      }
      LookupSkips(Value(), stage, key, keyLen, n);
      return None;
    }
  }

  method CompareBytes(e: TcamEntry, key: KeyBytes, keyLen: uint8) returns (ok: bool)
    requires keyLen <= 64
    ensures ok == EntryMatches(e, key, keyLen)
  {
    hide ByteMatches;
    for b := 0 to CmpLen(e, keyLen)
      invariant forall j :: 0 <= j < b ==> ByteMatches(e, key, j)
    {
      if !ByteMatches(e, key, b) { return false; }
    }
    return true;
  }

  // ----- one stage on its own: its live entries in record order

  function LiveOf(d: seq<Rec>, stage: uint8): seq<TcamEntry> {
    if d == [] then []
    else if Live(d[0], stage) then [d[0].entry] + LiveOf(d[1..], stage)
    else LiveOf(d[1..], stage)
  }

  /** The first matching entry of a stage. */
  function FirstMatch(l: seq<TcamEntry>, key: KeyBytes, keyLen: uint8): Option<TcamEntry>
    requires keyLen <= 64
  {
    if l == [] then None
    else if EntryMatches(l[0], key, keyLen) then Some(l[0])
    else FirstMatch(l[1..], key, keyLen)
  }

  function Upserted(l: seq<TcamEntry>, e: TcamEntry): seq<TcamEntry> {
    if l == [] then [e]
    else if l[0].tableId == e.tableId then [e] + l[1..]
    else [l[0]] + Upserted(l[1..], e)
  }

  function Removed(l: seq<TcamEntry>, id: uint16): seq<TcamEntry> {
    if l == [] then []
    else if l[0].tableId == id then l[1..]
    else [l[0]] + Removed(l[1..], id)
  }

  predicate Has(l: seq<TcamEntry>, id: uint16) { exists i :: 0 <= i < |l| && l[i].tableId == id }

  lemma {:induction false} LookupIsFirstMatch(d: seq<Rec>, stage: uint8, key: KeyBytes, keyLen: uint8)
    requires keyLen <= 64
    ensures Lookup(d, stage, key, keyLen) == FirstMatch(LiveOf(d, stage), key, keyLen)
  {
    hide EntryMatches;
    if d != [] { LookupIsFirstMatch(d[1..], stage, key, keyLen); }
  }

  lemma {:induction false} FindIffHas(d: seq<Rec>, stage: uint8, id: uint16)
    ensures Find(d, stage, id).Some? <==> Has(LiveOf(d, stage), id)
  {
    if d != [] {
      FindIffHas(d[1..], stage, id);
      var l, rest := LiveOf(d, stage), LiveOf(d[1..], stage);
      if Live(d[0], stage) {
        assert l[0] == d[0].entry && forall i :: 0 <= i < |rest| ==> rest[i] == l[i + 1];
      }
    }
  }

  lemma {:induction false} LiveOfAppend(d: seq<Rec>, e: TcamEntry, stage: uint8)
    ensures LiveOf(d + [Rec(e, false)], stage) == LiveOf(d, stage) + if e.stage == stage then [e] else []
  {
    if d != [] {
      LiveOfAppend(d[1..], e, stage);
      assert (d + [Rec(e, false)])[1..] == d[1..] + [Rec(e, false)];
    }
  }

  lemma {:induction false} LiveOfUpdate(d: seq<Rec>, e: TcamEntry, stage: uint8)
    requires Find(d, e.stage, e.tableId).Some?
    ensures var k := Find(d, e.stage, e.tableId).value;
      LiveOf(d[k := Rec(e, false)], stage) ==
        if e.stage == stage then Upserted(LiveOf(d, stage), e) else LiveOf(d, stage)
  {
    var k := Find(d, e.stage, e.tableId).value;
    var d' := d[k := Rec(e, false)];
    if k == 0 {
      assert d'[1..] == d[1..];
    } else {
      LiveOfUpdate(d[1..], e, stage);
      assert d'[1..] == d[1..][k - 1 := Rec(e, false)];
    }
  }

  lemma {:induction false} LiveOfDelete(d: seq<Rec>, s: uint8, id: uint16, stage: uint8)
    requires Find(d, s, id).Some?
    ensures var k := Find(d, s, id).value;
      LiveOf(d[k := d[k].(deleted := true)], stage) ==
        if s == stage then Removed(LiveOf(d, stage), id) else LiveOf(d, stage)
  {
    var k := Find(d, s, id).value;
    var d' := d[k := d[k].(deleted := true)];
    if k == 0 {
      assert d'[1..] == d[1..];
    } else {
      LiveOfDelete(d[1..], s, id, stage);
      assert d'[1..] == d[1..][k - 1 := d[k].(deleted := true)];
    }
  }

  lemma HasHeadOrTail(l: seq<TcamEntry>, id: uint16)
    requires l != []
    ensures Has(l, id) <==> l[0].tableId == id || Has(l[1..], id)
  {
    assert forall i :: 0 <= i < |l[1..]| ==> l[1..][i] == l[i + 1];
  }

  lemma {:induction false} UpsertAppends(l: seq<TcamEntry>, e: TcamEntry)
    requires !Has(l, e.tableId)
    ensures Upserted(l, e) == l + [e]
  {
    if l != [] {
      HasHeadOrTail(l, e.tableId);
      UpsertAppends(l[1..], e);
    }
  }

  lemma {:induction false} RemoveMissing(l: seq<TcamEntry>, id: uint16)
    requires !Has(l, id)
    ensures Removed(l, id) == l
  {
    if l != [] {
      HasHeadOrTail(l, id);
      RemoveMissing(l[1..], id);
    }
  }

  /** An accepted insertion updates or appends in its own stage and leaves every other stage as it was; it is refused
      only when the record array is used up and the id is new. */
  lemma InsertPerStage(d: Db, e: TcamEntry, stage: uint8)
    ensures var r := Insert(d, e);
      && (r.0 == HalOk || (r == (HalFull, d) && |d| == TCAM_MAX && !Has(LiveOf(d, e.stage), e.tableId)))
      && (r.0 == HalOk ==>
        LiveOf(r.1, stage) == if e.stage == stage then Upserted(LiveOf(d, stage), e) else LiveOf(d, stage))
  {
    FindIffHas(d, e.stage, e.tableId);
    if Find(d, e.stage, e.tableId).Some? {
      LiveOfUpdate(d, e, stage);
    } else {
      LiveOfAppend(d, e, stage);
      UpsertAppends(LiveOf(d, e.stage), e);
    }
    hide Find, LiveOf, Upserted, Has;
  }

  /** A deletion removes the entry with that id from its own stage, and touches no other. */
  lemma DeletePerStage(d: Db, s: uint8, id: uint16, stage: uint8)
    ensures var r := Delete(d, s, id);
      && (r.0 == HalOk <==> Has(LiveOf(d, s), id)) && (r.0 == HalOk || r == (HalInval, d))
      && LiveOf(r.1, stage) == if s == stage then Removed(LiveOf(d, stage), id) else LiveOf(d, stage)
  {
    FindIffHas(d, s, id);
    if Find(d, s, id).Some? {
      LiveOfDelete(d, s, id, stage);
    } else {
      RemoveMissing(LiveOf(d, s), id);
    }
    hide Find, LiveOf, Removed, Has;
  }

  lemma InsertOtherStages(d: Db, e: TcamEntry)
    ensures forall stage: uint8 :: stage != e.stage ==> LiveOf(Insert(d, e).1, stage) == LiveOf(d, stage)
  {
    hide Insert, LiveOf;
    forall stage: uint8 | stage != e.stage ensures LiveOf(Insert(d, e).1, stage) == LiveOf(d, stage) {
      InsertPerStage(d, e, stage);
    }
  }

  lemma DeleteOtherStages(d: Db, s: uint8, id: uint16)
    ensures forall stage: uint8 :: stage != s ==> LiveOf(Delete(d, s, id).1, stage) == LiveOf(d, stage)
  {
    hide Delete, LiveOf;
    forall stage: uint8 | stage != s ensures LiveOf(Delete(d, s, id).1, stage) == LiveOf(d, stage) {
      DeletePerStage(d, s, id, stage);
    }
  }
}
