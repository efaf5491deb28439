/** Routing and switching in the packet pipeline (sw/firmware/test/pkt_model.c): which header bytes decide at stages 0
    and 2, what the winning entry does, and that the route rewrites the address the switching table then looks up. */
module Forwarding {
  import opened Words
  import opened Bits
  import opened Hal
  import opened SimHal
  import opened StageLists
  import opened PktModel

  /** The header bytes from `off` on agree with the entry's key under its mask, over at most `n` bytes. */
  predicate OnHeader(e: TcamEntry, p: Phv, off: nat, n: nat)
    requires off + n <= HDR_SIZE && n <= 64
  {
    forall b :: 0 <= b < n && b < e.key.len ==>
      And8(p.hdr[off + b], e.mask.bytes[b]) == And8(e.key.bytes[b], e.mask.bytes[b])
  }

  predicate NoneOnHeader(l: seq<TcamEntry>, i: nat, p: Phv, off: nat, n: nat)
    requires off + n <= HDR_SIZE && n <= 64 && i <= |l|
  {
    forall j :: 0 <= j < i ==> !OnHeader(l[j], p, off, n)
  }

  /** The first entry of a list that agrees with the header bytes, if any does. */
  ghost predicate IsFirstOn(l: seq<TcamEntry>, p: Phv, off: nat, n: nat, m: Option<TcamEntry>)
    requires off + n <= HDR_SIZE && n <= 64
  {
    match m
    case None => NoneOnHeader(l, |l|, p, off, n)
    case Some(e) => exists i :: 0 <= i < |l| && l[i] == e && OnHeader(e, p, off, n) && NoneOnHeader(l, i, p, off, n)
  }

  lemma OnHeaderIsMatch(e: TcamEntry, p: Phv, off: nat, n: nat, key: KeyBytes)
    requires off + n <= HDR_SIZE && n <= 64 && forall b :: 0 <= b < n ==> key[b] == p.hdr[off + b]
    ensures EntryMatches(e, key, n) <==> OnHeader(e, p, off, n)
  {
    hide And8;
    if OnHeader(e, p, off, n) {
      forall b | 0 <= b < CmpLen(e, n) ensures ByteMatches(e, key, b) {
        assert And8(p.hdr[off + b], e.mask.bytes[b]) == And8(e.key.bytes[b], e.mask.bytes[b]);
      }
    }
    if EntryMatches(e, key, n) {
      forall b | 0 <= b < n && b < e.key.len
        ensures And8(p.hdr[off + b], e.mask.bytes[b]) == And8(e.key.bytes[b], e.mask.bytes[b])
      {
        assert ByteMatches(e, key, b);
      }
    }
  }

  lemma FirstMatchIsFirstOn(l: seq<TcamEntry>, p: Phv, off: nat, n: nat, key: KeyBytes)
    requires off + n <= HDR_SIZE && n <= 64 && forall b :: 0 <= b < n ==> key[b] == p.hdr[off + b]
    ensures IsFirstOn(l, p, off, n, FirstMatch(l, key, n))
  {
    hide EntryMatches, OnHeader, FirstMatch;
    FirstMatchAt(l, key, n);
    forall j | 0 <= j < |l| ensures EntryMatches(l[j], key, n) <==> OnHeader(l[j], p, off, n) {
      OnHeaderIsMatch(l[j], p, off, n, key);
    }
    var m := FirstMatch(l, key, n);
    if m.Some? {
      var i :| 0 <= i < |l| && l[i] == m.value && NoneBefore(l, i, key, n);
      FirstMatchIsMember(l, key, n);
      assert NoneOnHeader(l, i, p, off, n);
    }
  }

  /** Only one entry, or none, is the first. */
  lemma FirstOnIsUnique(l: seq<TcamEntry>, p: Phv, off: nat, n: nat, m: Option<TcamEntry>, m': Option<TcamEntry>)
    requires off + n <= HDR_SIZE && n <= 64 && IsFirstOn(l, p, off, n, m) && IsFirstOn(l, p, off, n, m')
    ensures m == m'
  {
    hide OnHeader;
    if m.Some? && m'.Some? {
      var i :| 0 <= i < |l| && l[i] == m.value && OnHeader(m.value, p, off, n) && NoneOnHeader(l, i, p, off, n);
      var j :| 0 <= j < |l| && l[j] == m'.value && OnHeader(m'.value, p, off, n) && NoneOnHeader(l, j, p, off, n);
      assert i == j;
    }
  }

  /** The lookups of the two stages: the four bytes of the IPv4 destination address, and the six of the Ethernet one. */
  lemma HitIsFirstOn(d: seq<Rec>, p: Phv, m: Option<TcamEntry>)
    ensures IsFirstOn(LiveOf(d, 0), p, 34, 4, m) <==> m == Hit(d, p, 0)
    ensures IsFirstOn(LiveOf(d, 2), p, 0, 6, m) <==> m == Hit(d, p, 2)
  {
    var k0, k2 := Pad(KeyBytesOf(p, 0)), Pad(KeyBytesOf(p, 2));
    assert forall b :: 0 <= b < 4 ==> k0[b] == p.hdr[34 + b];
    assert forall b :: 0 <= b < 6 ==> k2[b] == p.hdr[0 + b];
    assert |KeyBytesOf(p, 0)| == 4 && |KeyBytesOf(p, 2)| == 6;
    hide Pad, KeyBytesOf, IsFirstOn, FirstMatch, Lookup, LiveOf;
    LookupIsFirstMatch(d, 0, k0, 4);
    LookupIsFirstMatch(d, 2, k2, 6);
    FirstMatchIsFirstOn(LiveOf(d, 0), p, 34, 4, k0);
    FirstMatchIsFirstOn(LiveOf(d, 2), p, 0, 6, k2);
    if IsFirstOn(LiveOf(d, 0), p, 34, 4, m) { FirstOnIsUnique(LiveOf(d, 0), p, 34, 4, m, Hit(d, p, 0)); }
    if IsFirstOn(LiveOf(d, 2), p, 0, 6, m) { FirstOnIsUnique(LiveOf(d, 2), p, 0, 6, m, Hit(d, p, 2)); }
  }

  /** What each action does to a packet, by the numbers of sw/firmware/table_map.h. */
  lemma ActionMeans(p: Phv, e: TcamEntry)
    ensures var q, a := Applied(p, e), e.actionId;
      && (a == 0x1001 ==> q == p.(egPort := e.params[0], hdr := q.hdr))
      && (a == 0x1001 ==> forall i :: 0 <= i < 6 ==> q.hdr[i] == e.params[1 + i])
      && (a == 0x1001 ==> forall i :: 6 <= i < HDR_SIZE ==> q.hdr[i] == p.hdr[i])
      && (a in {0x1002, 0x2002, 0x5003} ==> q == p.(drop := true))
      && (a == 0x3001 ==> q == p.(egPort := e.params[0]))
      && (a == 0x3002 ==> q == p.(egPort := 0xFF))
      && (a == 0x4001 ==> q == p.(punt := true))
      && (a == 0x5001 ==> q == p.(vlanId := e.params[0] as int * 256 + e.params[1] as int))
      && (a == 0x5002 && e.params[0] == 0 && e.params[1] == 0 ==>
        q == p.(vlanId := p.hdr[14] as int % 16 * 256 + p.hdr[15] as int))
      && (a == 0x5002 && (e.params[0] != 0 || e.params[1] != 0) ==>
        q == p.(vlanId := e.params[0] as int * 256 + e.params[1] as int))
      && (a == 0x5004 ==> q == p.(vlanAction := ActStrip, hdr := p.hdr[14 := 0][15 := 0]))
      && (a == 0x5005 ==> q == p.(vlanAction := ActKeep))
      && (a == 0x6001 ==> q == p.(qosPrio := e.params[0]))
      && (a !in {0x1001, 0x1002, 0x2002, 0x5003, 0x3001, 0x3002, 0x4001, 0x5001, 0x5002, 0x5004, 0x5005, 0x6001} ==>
        q == p)
  {
  }

  // ----- the two stages in the pipeline

  /** A packet at stage 0: the first route that agrees with its destination address forwards it, with the address of the
      next hop in front, or drops it; with no such route it is left alone. */
  ghost predicate RoutedAsListed(d: seq<Rec>, p: Phv) {
    forall m :: IsFirstOn(LiveOf(d, 0), p, 34, 4, m) ==>
      var q := Before(d, p, 1);
      && (m.None? ==> q == p)
      && (m.Some? && m.value.actionId == ACTION_FORWARD ==>
        && q == p.(egPort := m.value.params[0], hdr := q.hdr)
        && q.hdr[..6] == m.value.params[1..7] && q.hdr[6..] == p.hdr[6..])
      && (m.Some? && m.value.actionId == ACTION_DROP ==> q == p.(drop := true))
  }

  /** A packet at stage 2: the first entry that agrees with its destination MAC, as it stands by then, chooses the port.
      */
  ghost predicate SwitchedAsListed(d: seq<Rec>, p: Phv) {
    forall m :: IsFirstOn(LiveOf(d, 2), Before(d, p, 2), 0, 6, m) ==>
      var q, r := Before(d, p, 2), Before(d, p, 3);
      && (m.None? ==> r == q)
      && (m.Some? && m.value.actionId == ACTION_L2_FORWARD ==> r == q.(egPort := m.value.params[0]))
      && (m.Some? && m.value.actionId == ACTION_FLOOD ==> r == q.(egPort := 0xFF))
  }

  lemma StageZeroRoutes(d: seq<Rec>, p: Phv)
    requires Reaches(d, p, 0)
    ensures RoutedAsListed(d, p)
  {
    assert Before(d, p, 0) == p && Before(d, p, 1) == Step(d, p, 0);
    hide Before, IsFirstOn, Applied, Hit, LiveOf;
    forall m | IsFirstOn(LiveOf(d, 0), p, 34, 4, m) ensures m == Hit(d, p, 0) { HitIsFirstOn(d, p, m); }
    var m := Hit(d, p, 0);
    if m.Some? {
      ActionMeans(p, m.value);
      SameFront(Applied(p, m.value).hdr, p.hdr, m.value.params);
    }
  }

  lemma SameFront(a: Hdr, b: Hdr, params: ParamBytes)
    ensures (forall i :: 0 <= i < 6 ==> a[i] == params[1 + i]) ==> a[..6] == params[1..7]
    ensures (forall i :: 6 <= i < HDR_SIZE ==> a[i] == b[i]) ==> a[6..] == b[6..]
  {
  }

  lemma StageTwoSwitches(d: seq<Rec>, p: Phv)
    requires Reaches(d, p, 2)
    ensures SwitchedAsListed(d, p)
  {
    var q := Before(d, p, 2);
    assert Before(d, p, 3) == Step(d, q, 2);
    hide Before, IsFirstOn, Applied, Hit, LiveOf;
    forall m | IsFirstOn(LiveOf(d, 2), q, 0, 6, m) ensures m == Hit(d, q, 2) { HitIsFirstOn(d, q, m); }
    var m := Hit(d, q, 2);
    if m.Some? { ActionMeans(q, m.value); }
  }

  /** An access list does not change the header. */
  lemma AclKeepsHeader(d: seq<Rec>, p: Phv)
    requires forall e :: e in LiveOf(d, 1) ==> e.actionId in {ACTION_PERMIT, ACTION_DENY}
    ensures Before(d, p, 2).hdr == Before(d, p, 1).hdr && Before(d, p, 2).egPort == Before(d, p, 1).egPort
  {
    var q := Before(d, p, 1);
    assert Before(d, p, 2) == if Leaving(q) then q else Step(d, q, 1);
    var key := Pad(KeyBytesOf(q, 1));
    LookupIsFirstMatch(d, 1, key, |KeyBytesOf(q, 1)|);
    FirstMatchIsMember(LiveOf(d, 1), key, |KeyBytesOf(q, 1)|);
    hide Before, LiveOf, FirstMatch, Lookup, Pad, KeyBytesOf, EntryMatches;
  }

  /** The route chooses the address the switching table looks up: a packet that a route forwards, and that no access
      list drops, leaves stage 2 by the port of the first switching entry for the next hop's MAC, and by the port of the
      route when there is none; the address it came in with does not matter. */
  lemma RouteChoosesNextHop(d: seq<Rec>, p: Phv, route: TcamEntry, next: Phv, m: Option<TcamEntry>)
    requires forall e :: e in LiveOf(d, 1) ==> e.actionId in {ACTION_PERMIT, ACTION_DENY}
    requires Reaches(d, p, 0) && Reaches(d, p, 2)
    requires IsFirstOn(LiveOf(d, 0), p, 34, 4, Some(route)) && route.actionId == ACTION_FORWARD
    requires next.hdr[..6] == route.params[1..7] && IsFirstOn(LiveOf(d, 2), next, 0, 6, m)
    ensures Before(d, p, 2).hdr[..6] == route.params[1..7]
    ensures m.None? ==> Before(d, p, 3).egPort == route.params[0]
    ensures m.Some? && m.value.actionId == ACTION_L2_FORWARD ==> Before(d, p, 3).egPort == m.value.params[0]
    ensures m.Some? && m.value.actionId == ACTION_FLOOD ==> Before(d, p, 3).egPort == 0xFF
  {
    hide Before, LiveOf, IsFirstOn, Step;
    StageZeroRoutes(d, p);
    AclKeepsHeader(d, p);
    StageTwoSwitches(d, p);
    var q := Before(d, p, 2);
    SameFirstOn(LiveOf(d, 2), q, next, m);
  }

  lemma SameFirstOn(l: seq<TcamEntry>, p: Phv, q: Phv, m: Option<TcamEntry>)
    requires p.hdr[..6] == q.hdr[..6]
    ensures IsFirstOn(l, p, 0, 6, m) <==> IsFirstOn(l, q, 0, 6, m)
  {
    hide And8;
    forall i | 0 <= i < 6 ensures p.hdr[i] == q.hdr[i] { assert p.hdr[..6][i] == q.hdr[..6][i]; }
    forall e ensures OnHeader(e, p, 0, 6) == OnHeader(e, q, 0, 6) {}
    hide OnHeader;
    forall i: nat | i <= |l| ensures NoneOnHeader(l, i, p, 0, 6) == NoneOnHeader(l, i, q, 0, 6) {}
  }
}
