/** The ternary memory of one match-action stage (rtl/mau/mau_tcam.sv): 2048 entries of 512 bits, lowest index first,
    with a registered result. A 512-bit value is held as its sixteen 32-bit words. */
module MauTcam {
  import opened Words
  import opened Bits

  const DEPTH: nat := 2048
  const KEY_WORDS: nat := 16

  type Index = i: int | 0 <= i < 2048
  type Key = k: seq<uint32> | |k| == 16 witness seq(16, _ => 0)

  datatype Entry = Entry(key: Key, mask: Key, actionId: uint16, actionPtr: uint16, valid: bool)

  const BLANK := Entry(seq(16, _ => 0), seq(16, _ => 0), 0, 0, false)

  type Table = t: seq<Entry> | |t| == 2048 witness seq(2048, _ => BLANK)

  /** The write port. */
  datatype Write = Write(en: bool, addr: Index, entry: Entry)

  /** The entries and the result registers. */
  datatype TcamState = TcamState(table: Table, hit: bool, hitIdx: Index, actionId: uint16, actionPtr: uint16)

  predicate WordMatches(k: uint32, tk: uint32, tm: uint32) {
    Word32();
    And(Xor(k, tk, 32), Not(tm, 32), 32) == 0
  }

  /** A set mask bit is a don't-care: no difference may survive the bits that are not masked. */
  predicate Matches(e: Entry, k: Key) {
    e.valid && forall i :: 0 <= i < KEY_WORDS ==> WordMatches(k[i], e.key[i], e.mask[i])
  }

  function FirstFrom(t: Table, k: Key, i: nat): Option<Index>
    requires i <= DEPTH
    decreases DEPTH - i
  {
    if i == DEPTH then None
    else if Matches(t[i], k) then Some(i)
    else FirstFrom(t, k, i + 1)
  }

  function First(t: Table, k: Key): Option<Index> { FirstFrom(t, k, 0) }

  ghost predicate IsFirst(t: Table, k: Key, r: Option<Index>) {
    match r
    case None => forall i: Index :: !Matches(t[i], k)
    case Some(h) => Matches(t[h], k) && forall i: Index :: i < h ==> !Matches(t[i], k)
  }

  lemma {:induction false} FirstFromIsFirst(t: Table, k: Key, i: nat)
    requires i <= DEPTH && forall j: Index :: j < i ==> !Matches(t[j], k)
    ensures IsFirst(t, k, FirstFrom(t, k, i))
    decreases DEPTH - i
  {
    hide Matches;
    if i < DEPTH && !Matches(t[i], k) { FirstFromIsFirst(t, k, i + 1); }
  }

  /** The specification picks the lowest matching index, and nothing else does. */
  lemma FirstIsUnique(t: Table, k: Key, r: Option<Index>)
    ensures IsFirst(t, k, r) <==> r == First(t, k)
  {
    FirstFromIsFirst(t, k, 0);
    hide Matches;
  }

  function Written(t: Table, w: Write): Table { if w.en then t[w.addr := w.entry] else t }

  function Looked(s: TcamState, k: Key): TcamState {
    match First(s.table, k)
    case None => TcamState(s.table, false, 0, 0, 0)
    case Some(i) => TcamState(s.table, true, i, s.table[i].actionId, s.table[i].actionPtr)
  }

  /** One clock edge: the lookup reads the entries as they were before the write of the same edge. */
  function Clock(s: TcamState, k: Key, lookup: bool, w: Write): TcamState {
    var r := if lookup then Looked(s, k) else s;
    r.(table := Written(s.table, w))
  }

  class Tcam {
    const entries: array<Entry>
    var hit: bool
    var hitIdx: Index
    var actionId: uint16
    var actionPtr: uint16

    ghost predicate Valid() { entries.Length == DEPTH }

    ghost function Value(): TcamState
      reads this, entries
      requires Valid()
    {
      TcamState(entries[..], hit, hitIdx, actionId, actionPtr)
    }

    constructor ()
      ensures Valid() && fresh(entries) && Value() == TcamState(seq(2048, _ => BLANK), false, 0, 0, 0)
    {
      entries := new Entry[DEPTH](_ => BLANK);
      hit, hitIdx, actionId, actionPtr := false, 0, 0, 0;
    }

    /** The priority encoder scans down from the highest index, so the lowest match is assigned last. */
    method PriorityEncode(k: Key) returns (anyMatch: bool, priIdx: Index)
      requires Valid()
      ensures (if anyMatch then Some(priIdx) else None) == First(entries[..], k)
      ensures !anyMatch ==> priIdx == 0
    {
      anyMatch, priIdx := false, 0;
      hide Matches;
      for i := DEPTH downto 0
        invariant forall j: Index :: i <= j && (anyMatch ==> j < priIdx) ==> !Matches(entries[j], k)
        invariant if anyMatch then i <= priIdx && Matches(entries[priIdx], k) else priIdx == 0
      {
        if Matches(entries[i], k) { anyMatch, priIdx := true, i; }
      }
      FirstIsUnique(entries[..], k, if anyMatch then Some(priIdx) else None);
    }

    method ClockEdge(k: Key, lookup: bool, w: Write)
      requires Valid()
      modifies this, entries
      ensures Value() == Clock(old(Value()), k, lookup, w)
    {
      if lookup {
        hit, hitIdx := PriorityEncode(k);
        actionId := if hit then entries[hitIdx].actionId else 0;
        actionPtr := if hit then entries[hitIdx].actionPtr else 0;
      }
      hide FirstFrom;
      if w.en { entries[w.addr] := w.entry; }
    }
  }
}
