/** Facts about the live entries of one stage as a list: what updates do to its members, and which one matches first. */
module StageLists {
  import opened Words
  import opened Hal
  import opened SimHal

  predicate UniqueIds(l: seq<TcamEntry>) {
    forall i, j :: 0 <= i < j < |l| ==> l[i].tableId != l[j].tableId
  }

  predicate Increasing(l: seq<TcamEntry>) {
    forall i, j :: 0 <= i < j < |l| ==> l[i].tableId < l[j].tableId
  }

  lemma UniqueTail(l: seq<TcamEntry>)
    requires UniqueIds(l) && l != []
    ensures UniqueIds(l[1..]) && forall x :: x in l[1..] ==> x.tableId != l[0].tableId
  {
  }

  lemma ConsUnique(x: TcamEntry, l: seq<TcamEntry>)
    requires UniqueIds(l) && forall y :: y in l ==> y.tableId != x.tableId
    ensures UniqueIds([x] + l)
  {
  }

  lemma InCons(x: TcamEntry, l: seq<TcamEntry>)
    ensures forall y :: y in [x] + l <==> y == x || y in l
  {
  }

  lemma {:induction false} UpsertedMembers(l: seq<TcamEntry>, e: TcamEntry)
    requires UniqueIds(l)
    ensures UniqueIds(Upserted(l, e))
    ensures forall x :: x in Upserted(l, e) <==> x == e || (x in l && x.tableId != e.tableId)
  {
    if l != [] {
      UniqueTail(l);
      assert l == [l[0]] + l[1..];
      InCons(l[0], l[1..]);
      if l[0].tableId == e.tableId {
        ConsUnique(e, l[1..]);
        InCons(e, l[1..]);
      } else {
        UpsertedMembers(l[1..], e);
        ConsUnique(l[0], Upserted(l[1..], e));
        InCons(l[0], Upserted(l[1..], e));
      }
      hide UniqueIds;
    }
  }

  lemma {:induction false} RemovedMembers(l: seq<TcamEntry>, id: uint16)
    requires UniqueIds(l)
    ensures UniqueIds(Removed(l, id))
    ensures forall x :: x in Removed(l, id) <==> x in l && x.tableId != id
  {
    if l != [] {
      UniqueTail(l);
      assert l == [l[0]] + l[1..];
      InCons(l[0], l[1..]);
      if l[0].tableId != id {
        RemovedMembers(l[1..], id);
        ConsUnique(l[0], Removed(l[1..], id));
        InCons(l[0], Removed(l[1..], id));
      }
      hide UniqueIds;
    }
  }

  lemma {:induction false} RemovedIncreasing(l: seq<TcamEntry>, id: uint16)
    requires Increasing(l)
    ensures Increasing(Removed(l, id)) && UniqueIds(l)
  {
    if l != [] && l[0].tableId != id {
      RemovedIncreasing(l[1..], id);
      RemovedMembers(l[1..], id);
      var r := Removed(l[1..], id);
      forall i, j | 0 <= i < j < |[l[0]] + r| ensures ([l[0]] + r)[i].tableId < ([l[0]] + r)[j].tableId {
        assert r[j - 1] in l[1..];
      }
    }
  }

  /** The first match is a member that matches, and there is one whenever any member matches. */
  lemma {:induction false} FirstMatchIsMember(l: seq<TcamEntry>, key: KeyBytes, keyLen: uint8)
    requires keyLen <= 64
    ensures var m := FirstMatch(l, key, keyLen);
      && (m.Some? ==> m.value in l && EntryMatches(m.value, key, keyLen))
      && (m.None? ==> forall x :: x in l ==> !EntryMatches(x, key, keyLen))
  {
    hide EntryMatches;
    if l != [] && !EntryMatches(l[0], key, keyLen) {
      FirstMatchIsMember(l[1..], key, keyLen);
      assert l == [l[0]] + l[1..];
      InCons(l[0], l[1..]);
    }
  }

  /** In a list whose ids increase, the first match has the least id of all that match. */
  lemma {:induction false} FirstMatchIsLeast(l: seq<TcamEntry>, key: KeyBytes, keyLen: uint8)
    requires keyLen <= 64 && Increasing(l)
    ensures var m := FirstMatch(l, key, keyLen);
      m.Some? ==> forall x :: x in l && EntryMatches(x, key, keyLen) ==> m.value.tableId <= x.tableId
  {
    hide EntryMatches;
    if l != [] {
      FirstMatchIsLeast(l[1..], key, keyLen);
      assert l == [l[0]] + l[1..];
      InCons(l[0], l[1..]);
    }
  }

  // ----- where the first match stands

  lemma {:induction false} FirstMatchAt(l: seq<TcamEntry>, key: KeyBytes, keyLen: uint8)
    requires keyLen <= 64
    ensures var m := FirstMatch(l, key, keyLen);
      && (m.None? ==> forall j :: 0 <= j < |l| ==> !EntryMatches(l[j], key, keyLen))
      && (m.Some? ==> exists i :: 0 <= i < |l| && l[i] == m.value && NoneBefore(l, i, key, keyLen))
  {
    hide EntryMatches;
    if l != [] {
      FirstMatchAt(l[1..], key, keyLen);
      if EntryMatches(l[0], key, keyLen) {
        assert l[0] == FirstMatch(l, key, keyLen).value && NoneBefore(l, 0, key, keyLen);
      } else {
        var m := FirstMatch(l[1..], key, keyLen);
        if m.Some? {
          var i :| 0 <= i < |l[1..]| && l[1..][i] == m.value && NoneBefore(l[1..], i, key, keyLen);
          ShiftNoneBefore(l, i, key, keyLen);
          assert l[i + 1] == m.value;
        } else {
          forall j | 0 <= j < |l| ensures !EntryMatches(l[j], key, keyLen) {
            if j > 0 { assert l[j] == l[1..][j - 1]; }
          }
        }
      }
    }
  }

  predicate NoneBefore(l: seq<TcamEntry>, i: nat, key: KeyBytes, keyLen: uint8)
    requires keyLen <= 64 && i <= |l|
  {
    forall j :: 0 <= j < i ==> !EntryMatches(l[j], key, keyLen)
  }

  lemma ShiftNoneBefore(l: seq<TcamEntry>, i: nat, key: KeyBytes, keyLen: uint8)
    requires keyLen <= 64 && i < |l| - 1
    requires NoneBefore(l[1..], i, key, keyLen) && !EntryMatches(l[0], key, keyLen)
    ensures NoneBefore(l, i + 1, key, keyLen)
  {
    hide EntryMatches;
    forall j | 0 <= j < i + 1 ensures !EntryMatches(l[j], key, keyLen) {
      if j > 0 { assert l[j] == l[1..][j - 1]; }
    }
  }
}
