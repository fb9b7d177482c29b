/** Search in, and backward merge of, descending ID lists: `mdb_midl_search` and
    `mdb_midl_xmerge` (midl.c). */
module MidlMerge {
  import opened CTypes
  import opened MidlSort

  /** All ones, the delimiter of the merge scan. */
  const ALL_ONES: MdbId := SIZE_LIMIT - 1

  /** The array holds an ID list: the count in entry 0 and room for that many entries. */
  ghost predicate IsList(s: seq<MdbId>) {
    |s| >= 1 && s[0] < |s|
  }

  ghost predicate IsSortedList(s: seq<MdbId>) {
    IsList(s) && DescendingOn(s, 1, s[0] as int + 1)
  }

  ghost function Entries(s: seq<MdbId>): seq<MdbId>
    requires IsList(s)
  {
    s[1..s[0] + 1]
  }

  // ---------------------------------------------------------------- search

  /** The position `c` splits the entries: at least `id` before it, at most `id` from it on. It
      holds `id` exactly when the list does; otherwise all entries before it are larger. */
  ghost predicate SplitsAt(s: seq<MdbId>, id: MdbId, c: int)
    requires IsList(s)
  {
    && 1 <= c <= s[0] as int + 1
    && (forall p :: 1 <= p < c ==> s[p] >= id)
    && (forall p :: c <= p <= s[0] as int ==> s[p] <= id)
    && (id in Entries(s) <==> c <= s[0] as int && s[c] == id)
    && (id !in Entries(s) ==> forall p :: 1 <= p < c ==> s[p] > id)
  }

  lemma FoundAt(s: seq<MdbId>, id: MdbId, c: int)
    requires IsSortedList(s) && 1 <= c <= s[0] as int && s[c] == id
    ensures SplitsAt(s, id, c)
  {
    assert Entries(s)[c - 1] == id;
  }

  lemma FoundNowhere(s: seq<MdbId>, id: MdbId, c: int)
    requires IsList(s) && 1 <= c <= s[0] as int + 1
    requires forall p :: 1 <= p < c ==> s[p] > id
    requires forall p :: c <= p <= s[0] as int ==> s[p] < id
    ensures SplitsAt(s, id, c)
  {
    forall k | 0 <= k < |Entries(s)| ensures Entries(s)[k] != id {
      assert Entries(s)[k] == s[k + 1];
    }
  }


  /** Splits a descending list at `id`: everything before the returned position is at least `id`,
      everything from it on at most `id`, and the position holds `id` exactly when the list does. */
  method Search(ids: array<MdbId>, id: MdbId) returns (cursor: CUInt)
    requires IsSortedList(ids[..]) && ids[0] < UINT_LIMIT - 1
    ensures SplitsAt(ids[..], id, cursor)
  {
    var base: CUInt := 0;
    cursor := 1;
    var val := 0;
    var n: CUInt := ids[0];
    while 0 < n
      invariant 0 <= base && base + n <= ids[0]
      invariant forall p :: 1 <= p <= base ==> ids[p] > id
      invariant forall p :: base + n < p <= ids[0] ==> ids[p] < id
      invariant val <= 0 ==> cursor == base + n + 1 || (n == ids[0] && base == 0 && cursor == 1)
      invariant val > 0 ==> cursor == base
      invariant 0 <= cursor <= ids[0] + 1
    {
      var pivot := n / 2;
      cursor := base + pivot + 1;
      val := if ids[cursor] < id then -1 else if ids[cursor] > id then 1 else 0;
      if val < 0 {
        n := pivot;
      } else if val > 0 {
        base := cursor;
        n := n - (pivot + 1);
      } else {
        FoundAt(ids[..], id, cursor);
        return;
      }
    }
    if val > 0 {
      cursor := cursor + 1;
    }
    FoundNowhere(ids[..], id, cursor);
  }

  // ---------------------------------------------------------------- merge

  /** The merge of the first `j` entries of `d` with the first `r` of `m`, built from the back: the
      smaller last entry goes last, and of two equal ones the entry of `m`. */
  ghost function Merged(d: seq<MdbId>, m: seq<MdbId>, j: nat, r: nat): (w: seq<MdbId>)
    requires j <= |d| && r <= |m|
    ensures |w| == j + r
    decreases j + r
  {
    if r == 0 then d[..j]
    else if j > 0 && d[j - 1] < m[r - 1] then Merged(d, m, j - 1, r) + [d[j - 1]]
    else Merged(d, m, j, r - 1) + [m[r - 1]]
  }

  ghost function MergeOf(d: seq<MdbId>, m: seq<MdbId>): seq<MdbId> {
    Merged(d, m, |d|, |m|)
  }

  /** How often `v` occurs among the first `n` entries. */
  ghost function Count(s: seq<MdbId>, n: nat, v: MdbId): nat
    requires n <= |s|
  {
    if n == 0 then 0 else Count(s, n - 1, v) + if s[n - 1] == v then 1 else 0
  }

  lemma {:induction false} CountIsMultiplicity(s: seq<MdbId>, n: nat, v: MdbId)
    requires n <= |s|
    ensures Count(s, n, v) == multiset(s[..n])[v]
  {
    if n > 0 {
      CountIsMultiplicity(s, n - 1, v);
      assert s[..n] == s[..n - 1] + [s[n - 1]];
    }
  }

  lemma {:induction false} CountFrame(s: seq<MdbId>, t: seq<MdbId>, n: nat, v: MdbId)
    requires n <= |s| && n <= |t| && forall k :: 0 <= k < n ==> s[k] == t[k]
    ensures Count(s, n, v) == Count(t, n, v)
  {
    if n > 0 { CountFrame(s, t, n - 1, v); }
  }

  lemma {:induction false} MergedCount(d: seq<MdbId>, m: seq<MdbId>, j: nat, r: nat, v: MdbId)
    requires j <= |d| && r <= |m|
    ensures Count(Merged(d, m, j, r), j + r, v) == Count(d, j, v) + Count(m, r, v)
    decreases j + r
  {
    var w := Merged(d, m, j, r);
    if r == 0 {
      CountFrame(w, d, j, v);
    } else if j > 0 && d[j - 1] < m[r - 1] {
      CountFrame(w, Merged(d, m, j - 1, r), j + r - 1, v);
      MergedCount(d, m, j - 1, r, v);
    } else {
      CountFrame(w, Merged(d, m, j, r - 1), j + r - 1, v);
      MergedCount(d, m, j, r - 1, v);
    }
  }

  /** The merge holds exactly the entries of the two lists, sorted or not. */
  lemma MergedKeepsEntries(d: seq<MdbId>, m: seq<MdbId>)
    ensures multiset(MergeOf(d, m)) == multiset(d) + multiset(m)
  {
    var w := MergeOf(d, m);
    assert d[..|d|] == d && m[..|m|] == m && w[..|w|] == w;
    forall v: MdbId ensures multiset(w)[v] == (multiset(d) + multiset(m))[v] {
      MergedCount(d, m, |d|, |m|, v);
      CountIsMultiplicity(w, |w|, v);
      CountIsMultiplicity(d, |d|, v);
      CountIsMultiplicity(m, |m|, v);
    }
  }

  lemma {:induction false} MergedAtLeast(d: seq<MdbId>, m: seq<MdbId>, j: nat, r: nat, a: MdbId)
    requires j <= |d| && r <= |m|
    requires AtLeast(d, 0, j, a) && AtLeast(m, 0, r, a)
    ensures AtLeast(Merged(d, m, j, r), 0, j + r, a)
    decreases j + r
  {
    if r > 0 {
      if j > 0 && d[j - 1] < m[r - 1] {
        MergedAtLeast(d, m, j - 1, r, a);
      } else {
        MergedAtLeast(d, m, j, r - 1, a);
      }
    }
  }

  lemma DescendingOneMore(w: seq<MdbId>, a: MdbId)
    requires Descending(w) && AtLeast(w, 0, |w|, a)
    ensures Descending(w + [a])
  {
  }

  /** Merging two descending lists gives a descending list. */
  lemma {:induction false} MergedIsDescending(d: seq<MdbId>, m: seq<MdbId>, j: nat, r: nat)
    requires j <= |d| && r <= |m|
    requires DescendingOn(d, 0, j) && DescendingOn(m, 0, r)
    ensures Descending(Merged(d, m, j, r))
    decreases j + r
  {
    if r > 0 {
      if j > 0 && d[j - 1] < m[r - 1] {
        MergedIsDescending(d, m, j - 1, r);
        MergedAtLeast(d, m, j - 1, r, d[j - 1]);
        DescendingOneMore(Merged(d, m, j - 1, r), d[j - 1]);
      } else {
        MergedIsDescending(d, m, j, r - 1);
        MergedAtLeast(d, m, j, r - 1, m[r - 1]);
        DescendingOneMore(Merged(d, m, j, r - 1), m[r - 1]);
      }
    }
  }

  /** The merge in progress: `r` entries of `m` and `j` of `d` are still to be placed, the list
      `u` holds the end of the merge from position `k + 1` on, and the gap between `j` and `k` is
      exactly `r` wide, so no entry of the destination is overwritten before it is moved. */
  ghost predicate Merging(d: seq<MdbId>, m: seq<MdbId>, u: seq<MdbId>, r: int, j: int, k: int) {
    && |d| + |m| < |u|
    && 0 <= r <= |m| && 0 <= j <= |d| && k == r + j
    && u[0] == ALL_ONES
    && (forall x {:trigger u[x]} :: 1 <= x <= j ==> u[x] == d[x - 1])
    && var whole := MergeOf(d, m);
       && whole[..k] == Merged(d, m, j, r)
       && forall x {:trigger u[x]} :: k < x <= |d| + |m| ==> u[x] == whole[x - 1]
  }

  /** One step of the inner loop. Entry 0 being all ones, the loop cannot be entered with `j == 0`. */
  lemma PlaceOld(d: seq<MdbId>, m: seq<MdbId>, u: seq<MdbId>, r: int, j: int, k: int)
    requires Merging(d, m, u, r, j, k) && r > 0
    requires u[j] < m[r - 1]
    ensures j > 0 && Merging(d, m, u[k := u[j]], r, j - 1, k - 1)
  {
    var whole := MergeOf(d, m);
    assert whole[..k][k - 1] == d[j - 1];
    assert whole[..k - 1] == whole[..k][..k - 1];
  }

  lemma PlaceMerged(d: seq<MdbId>, m: seq<MdbId>, u: seq<MdbId>, r: int, j: int, k: int)
    requires Merging(d, m, u, r, j, k) && r > 0
    requires u[j] >= m[r - 1]
    ensures Merging(d, m, u[k := m[r - 1]], r - 1, j, k - 1)
  {
    var whole := MergeOf(d, m);
    assert whole[..k][k - 1] == m[r - 1];
    assert whole[..k - 1] == whole[..k][..k - 1];
  }

  lemma MergeStarts(s: seq<MdbId>, d: seq<MdbId>, m: seq<MdbId>)
    requires IsList(s) && d == Entries(s) && |d| + |m| < |s|
    ensures Merging(d, m, s[0 := ALL_ONES], |m|, |d|, |d| + |m|)
  {
    var whole := MergeOf(d, m);
    assert whole[..|d| + |m|] == whole;
  }

  lemma MergeFinishes(d: seq<MdbId>, m: seq<MdbId>, u: seq<MdbId>, j: int, total: MdbId)
    requires Merging(d, m, u, 0, j, j) && total == |d| + |m|
    ensures Entries(u[0 := total]) == MergeOf(d, m)
  {
    var whole, w := MergeOf(d, m), Entries(u[0 := total]);
    forall x | 0 <= x < |whole| ensures w[x] == whole[x] {
      assert w[x] == u[x + 1];
      if x < j { assert whole[..j][x] == d[..j][x]; }
    }
  }

  /** One round of the outer loop: the destination entries below `merge_id` move up into the gap,
      then `merge_id` takes the next place. */
  method MergeOne(idl: array<MdbId>, j0: MdbId, k0: MdbId, merge_id: MdbId,
                  ghost d: seq<MdbId>, ghost m: seq<MdbId>, ghost r: int)
    returns (j: MdbId, k: MdbId)
    requires Merging(d, m, idl[..], r, j0, k0) && r > 0 && m[r - 1] == merge_id
    modifies idl
    ensures Merging(d, m, idl[..], r - 1, j, k)
    ensures forall x {:trigger idl[x]} :: |d| + |m| < x < idl.Length ==> idl[x] == old(idl[x])
  {
    j, k := j0, k0;
    var old_id := idl[j];
    while old_id < merge_id
      invariant Merging(d, m, idl[..], r, j, k)
      invariant old_id == idl[j]
      invariant forall x {:trigger idl[x]} :: |d| + |m| < x < idl.Length ==> idl[x] == old(idl[x])
      decreases j
    {
      PlaceOld(d, m, idl[..], r, j, k);
      idl[k] := old_id;
      k := k - 1;
      j := j - 1;
      old_id := idl[j];
    }
    PlaceMerged(d, m, idl[..], r, j, k);
    idl[k] := merge_id;
    k := k - 1;
  }

  /** `mdb_midl_xmerge`: the entries of the destination become the merge of the two lists. The
      unbounded scan is stopped by the delimiter in entry 0, whatever the lists hold. */
  method XMerge(idl: array<MdbId>, merge: array<MdbId>)
    requires idl != merge && IsList(idl[..]) && IsList(merge[..])
    requires idl[0] as int + merge[0] as int < idl.Length && idl[0] as int + merge[0] as int < SIZE_LIMIT
    modifies idl
    ensures IsList(idl[..]) && idl[0] == old(idl[0]) + merge[0]
    ensures Entries(idl[..]) == MergeOf(old(Entries(idl[..])), old(Entries(merge[..])))
    ensures forall x {:trigger idl[x]} :: idl[0] < x < idl.Length ==> idl[x] == old(idl[x])
  {
    ghost var d, m := Entries(idl[..]), Entries(merge[..]);
    var i, j := merge[0], idl[0];
    var k: MdbId := i + j;
    var total := k;
    MergeStarts(idl[..], d, m);
    idl[0] := ALL_ONES;
    while i > 0
      invariant forall x {:trigger merge[x]} :: 1 <= x <= |m| ==> merge[x] == m[x - 1]
      invariant Merging(d, m, idl[..], i, j, k)
      invariant forall x {:trigger idl[x]} :: |d| + |m| < x < idl.Length ==> idl[x] == old(idl[x])
    {
      j, k := MergeOne(idl, j, k, merge[i], d, m, i);
      i := i - 1;
    }
    MergeFinishes(d, m, idl[..], j, total);
    idl[0] := total;
  }

  /** What callers rely on: merging a descending list into a descending list gives the descending
      list of exactly the entries of both. */
  lemma MergeOfSortedLists(d: seq<MdbId>, m: seq<MdbId>)
    requires Descending(d) && Descending(m)
    ensures Descending(MergeOf(d, m))
    ensures multiset(MergeOf(d, m)) == multiset(d) + multiset(m)
  {
    MergedIsDescending(d, m, |d|, |m|);
    MergedKeepsEntries(d, m);
  }

  /** A descending list is determined by its entries: sorting the concatenation and merging the
      sorted lists are the same thing. */
  lemma {:induction false} DescendingIsUnique(s: seq<MdbId>, t: seq<MdbId>)
    requires Descending(s) && Descending(t)
    requires multiset(s) == multiset(t)
    ensures s == t
  {
    SameSize(s, t);
    if s != [] {
      var n := |s| - 1;
      LastIsSmallest(s, t);
      LastIsSmallest(t, s);
      WithoutLast(s);
      WithoutLast(t);
      DescendingIsUnique(s[..n], t[..n]);
      assert s == s[..n] + [s[n]] && t == t[..n] + [t[n]];
    }
  }

  lemma SameSize(s: seq<MdbId>, t: seq<MdbId>)
    requires multiset(s) == multiset(t)
    ensures |s| == |t|
  {
    assert |multiset(s)| == |s| && |multiset(t)| == |t|;
  }

  lemma WithoutLast(s: seq<MdbId>)
    requires s != []
    ensures multiset(s[..|s| - 1]) == multiset(s) - multiset{s[|s| - 1]}
  {
    assert s == s[..|s| - 1] + [s[|s| - 1]];
  }

  lemma LastIsSmallest(s: seq<MdbId>, t: seq<MdbId>)
    requires s != [] && t != [] && Descending(s) && multiset(s) == multiset(t)
    ensures s[|s| - 1] <= t[|t| - 1]
  {
    var v := t[|t| - 1];
    assert v in multiset(t);
    assert v in s;
    var k :| 0 <= k < |s| && s[k] == v;
  }
}
