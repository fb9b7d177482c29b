/** ID2 lists: arrays of (page number, pointer) pairs in ascending order, the dirty list of a write
    transaction: `mdb_mid2l_search`, `mdb_mid2l_insert` and `mdb_mid2l_append` (midl.c). */
module MidlId2 {
  import opened CTypes
  import opened MidlList

  /** The pointer half of an ID2. */
  type Pointer = nat

  datatype Id2 = Id2(mid: MdbId, mptr: Pointer)

  /** Entry 0 counts the entries in its `mid`; the array has room for the largest list. */
  ghost predicate IsId2List(s: seq<Id2>) {
    |s| >= UM_SIZE && s[0].mid <= UM_MAX
  }

  ghost predicate Ascending(s: seq<Id2>)
    requires IsId2List(s)
  {
    forall p, q :: 1 <= p < q <= s[0].mid ==> s[p].mid < s[q].mid
  }

  ghost predicate Has(s: seq<Id2>, id: MdbId)
    requires IsId2List(s)
  {
    exists p :: 1 <= p <= s[0].mid && s[p].mid == id
  }

  /** What an ascending list means: the finite map from page numbers to pointers. */
  ghost function Meaning(s: seq<Id2>): map<MdbId, Pointer>
    requires IsId2List(s)
  {
    MapOf(s, s[0].mid)
  }

  ghost function MapOf(s: seq<Id2>, n: nat): map<MdbId, Pointer>
    requires n < |s|
  {
    if n == 0 then map[] else MapOf(s, n - 1)[s[n].mid := s[n].mptr]
  }

  lemma {:induction false} MapOfDomain(s: seq<Id2>, n: nat, id: MdbId)
    requires n < |s|
    ensures id in MapOf(s, n) <==> exists p :: 1 <= p <= n && s[p].mid == id
  {
    if n > 0 { MapOfDomain(s, n - 1, id); }
  }

  lemma {:induction false} MapOfLookup(s: seq<Id2>, n: nat, p: nat)
    requires 1 <= p <= n < |s|
    requires forall q, q' :: 1 <= q < q' <= n ==> s[q].mid < s[q'].mid
    ensures s[p].mid in MapOf(s, n) && MapOf(s, n)[s[p].mid] == s[p].mptr
  {
    if p < n { MapOfLookup(s, n - 1, p); }
  }

  /** An ascending list has one entry for each key, so its length is the size of the map. */
  lemma {:induction false} MapOfSize(s: seq<Id2>, n: nat)
    requires n < |s|
    requires forall q, q' :: 1 <= q < q' <= n ==> s[q].mid < s[q'].mid
    ensures |MapOf(s, n)| == n
  {
    if n > 0 {
      MapOfSize(s, n - 1);
      MapOfDomain(s, n - 1, s[n].mid);
      assert MapOf(s, n).Keys == MapOf(s, n - 1).Keys + {s[n].mid};
    }
  }

  /** The binary search returns the only position that splits the smaller keys from the others. */
  method Search(ids: array<Id2>, id: MdbId) returns (cursor: CUInt)
    requires IsId2List(ids[..]) && Ascending(ids[..])
    ensures 1 <= cursor <= ids[0].mid as int + 1
    ensures forall p :: 1 <= p < cursor ==> ids[p].mid < id
    ensures forall p :: cursor <= p <= ids[0].mid as int ==> ids[p].mid >= id
    ensures Has(ids[..], id) <==> cursor <= ids[0].mid && ids[cursor].mid == id
  {
    var base: CUInt := 0;
    cursor := 1;
    var val := 0;
    var n: CUInt := ids[0].mid;
    while 0 < n
      invariant 0 <= base && base as int + n as int <= ids[0].mid
      invariant forall p :: 1 <= p <= base ==> ids[p].mid < id
      invariant forall p :: base as int + n as int < p <= ids[0].mid as int ==> ids[p].mid > id
      invariant val <= 0 ==>
        cursor as int == base as int + n as int + 1 || (n == ids[0].mid && base == 0 && cursor == 1)
      invariant val > 0 ==> cursor == base
      invariant 0 <= cursor <= ids[0].mid as int + 1
    {
      var pivot := n / 2;
      cursor := base + pivot + 1;
      val := if id < ids[cursor].mid then -1 else if id > ids[cursor].mid then 1 else 0;
      if val < 0 {
        n := pivot;
      } else if val > 0 {
        base := cursor;
        n := n - (pivot + 1);
      } else {
        return;
      }
    }
    if val > 0 {
      cursor := cursor + 1;
    }
  }

  /** `t` is `s` with `id` put in at position `x` and the entries from there moved up by one. */
  ghost predicate Inserted(s: seq<Id2>, t: seq<Id2>, x: int, id: Id2)
    requires IsId2List(s)
  {
    && |t| == |s| && 1 <= x <= s[0].mid as int + 1 <= UM_MAX
    && t[0] == Id2(s[0].mid as int + 1, s[0].mptr)
    && (forall p {:trigger t[p]} :: 1 <= p < x ==> t[p] == s[p])
    && t[x] == id
    && (forall p {:trigger t[p]} :: x < p <= s[0].mid as int + 1 ==> t[p] == s[p - 1])
  }

  lemma {:induction false} InsertedMap(s: seq<Id2>, t: seq<Id2>, x: int, id: Id2, n: nat)
    requires IsId2List(s) && Inserted(s, t, x, id)
    requires x - 1 <= n <= s[0].mid
    requires forall p :: x <= p <= s[0].mid as int ==> s[p].mid > id.mid
    ensures MapOf(t, n + 1) == MapOf(s, n)[id.mid := id.mptr]
  {
    if n == x - 1 {
      SamePrefix(s, t, n);
    } else {
      InsertedMap(s, t, x, id, n - 1);
    }
  }

  lemma {:induction false} SamePrefix(s: seq<Id2>, t: seq<Id2>, n: nat)
    requires n < |s| && n < |t|
    requires forall p {:trigger t[p]} :: 1 <= p <= n ==> t[p] == s[p]
    ensures MapOf(t, n) == MapOf(s, n)
  {
    if n > 0 { SamePrefix(s, t, n - 1); }
  }

  /** Inserting where the search points keeps the order and adds exactly one binding. */
  lemma InsertionRefinesMapUpdate(s: seq<Id2>, t: seq<Id2>, x: int, id: Id2)
    requires IsId2List(s) && Ascending(s) && Inserted(s, t, x, id)
    requires forall p :: 1 <= p < x ==> s[p].mid < id.mid
    requires forall p :: x <= p <= s[0].mid as int ==> s[p].mid > id.mid
    ensures IsId2List(t) && Ascending(t)
    ensures Meaning(t) == Meaning(s)[id.mid := id.mptr]
  {
    InsertedMap(s, t, x, id, s[0].mid);
    forall p, q | 1 <= p < q <= t[0].mid ensures t[p].mid < t[q].mid {
      var p' := if p <= x then p else p - 1;
      var q' := if q <= x then q else q - 1;
      assert p != x ==> t[p] == s[p'];
      assert q != x ==> t[q] == s[q'];
    }
  }

  /** The loop of the insertion, run after the count has gone up: from the end of the list down, the
      entries behind position `x` are moved up by one, then the new entry fills the gap. */
  method OpenAndFill(ids: array<Id2>, x: CUInt, id: Id2)
    requires IsId2List(ids[..]) && 1 <= x <= ids[0].mid
    modifies ids
    ensures forall p {:trigger ids[p]} :: 0 <= p < x ==> ids[p] == old(ids[p])
    ensures ids[x] == id
    ensures forall p {:trigger ids[p]} :: x < p <= old(ids[0].mid) as int ==> ids[p] == old(ids[p - 1])
  {
    var i: CUInt := ids[0].mid;
    while i > x
      invariant x <= i <= old(ids[0].mid)
      invariant forall p {:trigger ids[p]} :: 0 <= p <= i as int ==> ids[p] == old(ids[p])
      invariant forall p {:trigger ids[p]} :: i as int < p <= old(ids[0].mid) as int ==> ids[p] == old(ids[p - 1])
    {
      ids[i] := ids[i - 1];
      i := i - 1;
    }
    ids[x] := id;
  }

  /** `mdb_mid2l_insert`: 0 binds a new key; -1 (key present) and -2 (list full) change nothing. */
  method Insert(ids: array<Id2>, id: Id2) returns (rc: CInt)
    requires IsId2List(ids[..]) && Ascending(ids[..])
    modifies ids
    ensures IsId2List(ids[..]) && Ascending(ids[..])
    ensures rc == if id.mid in old(Meaning(ids[..])) then -1
                  else if old(ids[0].mid) >= 131071 then -2 else 0
    ensures rc == 0 ==> Meaning(ids[..]) == old(Meaning(ids[..]))[id.mid := id.mptr]
    ensures rc != 0 ==> ids[..] == old(ids[..])
  {
    ghost var s := ids[..];
    MapOfDomain(s, s[0].mid, id.mid);
    var x := Search(ids, id.mid);
    if x <= ids[0].mid && ids[x].mid == id.mid {
      return -1;
    }
    if ids[0].mid >= UM_MAX {
      return -2;
    }
    ids[0] := Id2(ids[0].mid + 1, ids[0].mptr);
    OpenAndFill(ids, x, id);
    InsertionRefinesMapUpdate(s, ids[..], x, id);
    return 0;
  }

  /** `mdb_mid2l_append`: no search, whatever the order of the list. On an ascending list it agrees
      with an insertion exactly when the key is above every key of the list. */
  method Append(ids: array<Id2>, id: Id2) returns (rc: CInt)
    requires IsId2List(ids[..])
    modifies ids
    ensures IsId2List(ids[..])
    ensures rc == if old(ids[0].mid) >= 131071 then -2 else 0
    ensures rc != 0 ==> ids[..] == old(ids[..])
    ensures rc == 0 ==> Inserted(old(ids[..]), ids[..], old(ids[0].mid) as int + 1, id)
    ensures rc == 0 ==> Meaning(ids[..]) == old(Meaning(ids[..]))[id.mid := id.mptr]
    ensures rc == 0 ==>
      (Ascending(ids[..]) <==> old(Ascending(ids[..])) && forall k <- old(Meaning(ids[..])) :: k < id.mid)
  {
    if ids[0].mid >= UM_MAX {
      return -2;
    }
    ghost var s := ids[..];
    ids[0] := Id2(ids[0].mid + 1, ids[0].mptr);
    ids[ids[0].mid] := id;
    AppendRefines(s, ids[..], id);
    return 0;
  }

  lemma AppendRefines(s: seq<Id2>, t: seq<Id2>, id: Id2)
    requires IsId2List(s) && s[0].mid < UM_MAX
    requires Inserted(s, t, s[0].mid as int + 1, id)
    ensures IsId2List(t) && Meaning(t) == Meaning(s)[id.mid := id.mptr]
    ensures Ascending(t) <==> Ascending(s) && forall k <- Meaning(s) :: k < id.mid
  {
    InsertedMap(s, t, s[0].mid as int + 1, id, s[0].mid);
    if forall k <- Meaning(s) :: k < id.mid {
      forall p | 1 <= p <= s[0].mid as int ensures t[p].mid < id.mid {
        MapOfDomain(s, s[0].mid, s[p].mid);
        assert s[p].mid in Meaning(s);
      }
    }
    if Ascending(t) { AboveAllKeys(s, t, id); }
  }

  lemma AboveAllKeys(s: seq<Id2>, t: seq<Id2>, id: Id2)
    requires IsId2List(s) && IsId2List(t) && s[0].mid < UM_MAX
    requires Inserted(s, t, s[0].mid as int + 1, id) && Ascending(t)
    ensures Ascending(s) && forall k <- Meaning(s) :: k < id.mid
  {
    var n := s[0].mid;
    forall p, q | 1 <= p < q <= n ensures s[p].mid < s[q].mid {
      assert t[p] == s[p] && t[q] == s[q];
    }
    forall k <- Meaning(s) ensures k < id.mid {
      MapOfDomain(s, n, k);
      var p :| 1 <= p <= n && s[p].mid == k;
      assert t[p].mid < t[n as int + 1].mid;
    }
  }

  /** The keys of an ascending list are the domain of its map, and the count is its size: with the
      search's split, a lookup by position is a lookup in the map. */
  lemma ListIsItsMap(s: seq<Id2>)
    requires IsId2List(s) && Ascending(s)
    ensures |Meaning(s)| == s[0].mid
    ensures forall id: MdbId :: id in Meaning(s) <==> Has(s, id)
    ensures forall p :: 1 <= p <= s[0].mid as int ==> s[p].mid in Meaning(s) && Meaning(s)[s[p].mid] == s[p].mptr
  {
    MapOfSize(s, s[0].mid);
    forall id: MdbId ensures id in Meaning(s) <==> Has(s, id) {
      MapOfDomain(s, s[0].mid, id);
    }
    forall p | 1 <= p <= s[0].mid as int ensures s[p].mid in Meaning(s) && Meaning(s)[s[p].mid] == s[p].mptr {
      MapOfLookup(s, s[0].mid, p);
    }
  }
}
