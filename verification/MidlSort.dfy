/** The in-place, non-recursive sort of ID lists: `mdb_midl_sort` (midl.c). */
module MidlSort {
  import opened CTypes

  /** Segments shorter than this are finished by insertion. */
  const SMALL := 8
  /** Two for each bit of an `int`. */
  const STACK_SLOTS := 64
  /** The longest list for which `l + ir` fits a C `int`. */
  const MAX_SORTABLE := 0x4000_0003

  ghost predicate Descending(s: seq<MdbId>) {
    DescendingOn(s, 0, |s|)
  }

  ghost predicate DescendingOn(s: seq<MdbId>, lo: int, hi: int) {
    forall p, q :: 0 <= lo <= p < q < hi <= |s| ==> s[p] >= s[q]
  }

  ghost predicate AtLeast(s: seq<MdbId>, lo: int, hi: int, a: MdbId) {
    forall x :: 0 <= lo <= x < hi <= |s| ==> s[x] >= a
  }

  ghost predicate AtMost(s: seq<MdbId>, lo: int, hi: int, a: MdbId) {
    forall x :: 0 <= lo <= x < hi <= |s| ==> s[x] <= a
  }

  // ---------------------------------------------------------------- permuting a segment

  /** `t` is `s` with the entries of `[lo, hi)` rearranged and every other entry in place. */
  ghost predicate SegPerm(s: seq<MdbId>, t: seq<MdbId>, lo: int, hi: int) {
    && |t| == |s|
    && multiset(t) == multiset(s)
    && forall p {:trigger t[p]} :: 0 <= p < |s| && !(lo <= p < hi) ==> t[p] == s[p]
  }

  lemma SegPermMultiset(s: seq<MdbId>, t: seq<MdbId>, lo: int, hi: int)
    requires 0 <= lo <= hi <= |s|
    requires SegPerm(s, t, lo, hi)
    ensures multiset(t[lo..hi]) == multiset(s[lo..hi])
  {
    var s0, s1, s2 := s[..lo], s[lo..hi], s[hi..];
    var t0, t1, t2 := t[..lo], t[lo..hi], t[hi..];
    assert s == s0 + s1 + s2;
    assert t == t0 + t1 + t2;
    assert s0 == t0;
    assert s2 == t2;
    assert multiset(s1) == multiset(s) - multiset(s0) - multiset(s2);
    assert multiset(t1) == multiset(t) - multiset(t0) - multiset(t2);
  }

  /** Each value found in a segment after the rearrangement was in that segment before. */
  lemma SegPermSource(s: seq<MdbId>, t: seq<MdbId>, lo: int, hi: int, p: int) returns (q: int)
    requires 0 <= lo <= p < hi <= |s|
    requires SegPerm(s, t, lo, hi)
    ensures lo <= q < hi && s[q] == t[p]
  {
    SegPermMultiset(s, t, lo, hi);
    var s1, t1 := s[lo..hi], t[lo..hi];
    assert t1[p - lo] == t[p];
    assert t[p] in multiset(t1);
    assert t[p] in s1;
    var k :| 0 <= k < hi - lo && s1[k] == t[p];
    q := lo + k;
  }

  lemma SegPermTrans(s: seq<MdbId>, t: seq<MdbId>, u: seq<MdbId>, lo: int, hi: int, lo': int, hi': int)
    requires lo <= lo' && hi' <= hi
    requires SegPerm(s, t, lo, hi) && SegPerm(t, u, lo', hi')
    ensures SegPerm(s, u, lo, hi)
  {
  }

  // ---------------------------------------------------------------- cuts

  /** Boundary `b` separates the list: nothing before it is smaller than anything from it on. */
  ghost predicate CutAt(s: seq<MdbId>, n: int, b: int)
    requires n < |s|
  {
    forall x, y :: 1 <= x < b <= y <= n ==> s[x] >= s[y]
  }

  /** Rearranging a segment keeps every cut that is not strictly inside it. */
  lemma SegPermKeepsCut(s: seq<MdbId>, t: seq<MdbId>, n: int, lo: int, hi: int, b: int)
    requires 1 <= lo <= hi <= n + 1 <= |s|
    requires SegPerm(s, t, lo, hi)
    requires CutAt(s, n, b)
    requires b <= lo || hi <= b
    ensures CutAt(t, n, b)
  {
    forall x, y | 1 <= x < b <= y <= n ensures t[x] >= t[y] {
      var x', y' := x, y;
      if lo <= x < hi { x' := SegPermSource(s, t, lo, hi, x); }
      if lo <= y < hi { y' := SegPermSource(s, t, lo, hi, y); }
      assert s[x'] >= s[y'];
    }
  }

  // ---------------------------------------------------------------- the insertion pass

  /** The scan has opened a hole at `h`: the entries of `[h, j)` have moved up by one. */
  ghost predicate Shifted(s: seq<MdbId>, t: seq<MdbId>, h: int, j: int) {
    && 0 <= h <= j < |s| == |t|
    && (forall x {:trigger t[x]} :: 0 <= x < |s| && !(h < x <= j) ==> t[x] == s[x])
    && (forall x {:trigger t[x]} :: h < x <= j ==> t[x] == s[x - 1])
  }

  /** One step of the scan at an entry below `a`, which is never left of `l`. */
  lemma ShiftOne(s: seq<MdbId>, t: seq<MdbId>, l: int, i: int, j: int, a: MdbId)
    requires Shifted(s, t, i + 1, j) && 1 <= l && l - 1 <= i && 1 <= i
    requires l > 1 ==> s[l - 1] >= a
    requires t[i] < a && AtMost(s, i + 1, j, a)
    ensures l <= i
    ensures Shifted(s, t[i + 1 := t[i]], i, j) && AtMost(s, i, j, a)
  {
    assert t[i] == s[i];
  }

  /** Dropping entry `j` into the hole completes a rotation of `[h, j]`. */
  lemma FillIsSegPerm(s: seq<MdbId>, t: seq<MdbId>, l: int, h: int, j: int)
    requires l <= h && Shifted(s, t, h, j)
    ensures SegPerm(s, t[h := s[j]], l, j + 1)
  {
    var a, b, c := s[..h], s[h..j], s[j + 1..];
    assert s == a + b + [s[j]] + c;
    assert t[h := s[j]] == a + [s[j]] + b + c;
    ExchangeBlocks(a, b, [s[j]], c);
  }

  lemma ExchangeBlocks(a: seq<MdbId>, b: seq<MdbId>, x: seq<MdbId>, c: seq<MdbId>)
    ensures multiset(a + b + x + c) == multiset(a + x + b + c)
  {
  }

  lemma FillSorts(s: seq<MdbId>, t: seq<MdbId>, l: int, h: int, j: int)
    requires 1 <= l <= h && Shifted(s, t, h, j)
    requires DescendingOn(s, l, j)
    requires h > l ==> s[h - 1] >= s[j]
    requires AtMost(s, h, j, s[j])
    ensures DescendingOn(t[h := s[j]], l, j + 1)
  {
    var u := t[h := s[j]];
    forall p, q | l <= p < q <= j ensures u[p] >= u[q] {
      var p' := if p < h then p else if p == h then j else p - 1;
      var q' := if q < h then q else if q == h then j else q - 1;
      assert u[p] == s[p'] && u[q] == s[q'];
    }
  }

  /** The hole at `h` is the place for `a`, the old entry `j`: exactly the entries below it have moved. */
  ghost predicate HoleFor(s: seq<MdbId>, t: seq<MdbId>, l: int, h: int, j: int, a: MdbId) {
    1 <= l <= h && Shifted(s, t, h, j) && a == s[j] && AtMost(s, h, j, a) && (h > l ==> s[h - 1] >= a)
  }

  lemma FillCompletes(s: seq<MdbId>, t: seq<MdbId>, l: int, h: int, j: int, a: MdbId)
    requires HoleFor(s, t, l, h, j, a) && DescendingOn(s, l, j)
    ensures SegPerm(s, t[h := a], l, j + 1) && DescendingOn(t[h := a], l, j + 1)
  {
    FillIsSegPerm(s, t, l, h, j);
    FillSorts(s, t, l, h, j);
  }

  /** The scan of the insertion: entries below `a` move up. It is guarded by `i >= 1` only; what stops
      it at `l - 1` when `l > 1` is that the entry there is not smaller than `a`. */
  method ShiftUp(ids: array<MdbId>, l: CInt, j: CInt, a: MdbId) returns (i: CInt)
    requires 1 <= l < j < ids.Length && a == ids[j]
    requires l > 1 ==> ids[l - 1] >= a
    modifies ids
    ensures l - 1 <= i < j && HoleFor(old(ids[..]), ids[..], l, i + 1, j, a)
  {
    ghost var s := ids[..];
    i := j - 1;
    while i >= 1
      invariant l - 1 <= i < j
      invariant Shifted(s, ids[..], i + 1, j)
      invariant AtMost(s, i + 1, j, a)
    {
      if ids[i] >= a { break; }
      ghost var t := ids[..];
      ShiftOne(s, t, l, i, j, a);
      ids[i + 1] := ids[i];
      assert ids[..] == t[i + 1 := t[i]];
      i := i - 1;
    }
  }

  /** Drops `a` into the hole the scan has left in the list `s`. */
  method FillHole(ids: array<MdbId>, h: CInt, a: MdbId, ghost s: seq<MdbId>, ghost l: int, ghost j: int)
    requires HoleFor(s, ids[..], l, h, j, a) && DescendingOn(s, l, j)
    modifies ids
    ensures SegPerm(s, ids[..], l, j + 1) && DescendingOn(ids[..], l, j + 1)
  {
    ghost var t := ids[..];
    FillCompletes(s, t, l, h, j, a);
    ids[h] := a;
    assert ids[..] == t[h := a];
  }

  /** Inserts entry `j` into the descending run `[l, j)`. */
  method InsertOne(ids: array<MdbId>, l: CInt, j: CInt)
    requires 1 <= l < j < ids.Length
    requires l > 1 ==> ids[l - 1] >= ids[j]
    requires DescendingOn(ids[..], l, j)
    modifies ids
    ensures SegPerm(old(ids[..]), ids[..], l, j + 1)
    ensures DescendingOn(ids[..], l, j + 1)
  {
    ghost var s := ids[..];
    var a := ids[j];
    var i := ShiftUp(ids, l, j, a);
    FillHole(ids, i + 1, a, s, l, j);
  }

  method InsertionPass(ids: array<MdbId>, ghost n: CInt, l: CInt, ir: CInt)
    requires 1 <= l <= ir + 1 <= n + 1 <= ids.Length && n <= MAX_SORTABLE
    requires CutAt(ids[..], n, l)
    modifies ids
    ensures SegPerm(old(ids[..]), ids[..], l, ir + 1)
    ensures DescendingOn(ids[..], l, ir + 1)
  {
    ghost var s := ids[..];
    var j: CInt := l + 1;
    while j <= ir
      invariant l + 1 <= j && (j <= ir + 1 || j == l + 1) && j <= ids.Length + 1
      invariant SegPerm(s, ids[..], l, ir + 1)
      invariant CutAt(ids[..], n, l)
      invariant DescendingOn(ids[..], l, j)
    {
      ghost var t := ids[..];
      InsertOne(ids, l, j);
      SegPermKeepsCut(t, ids[..], n, l, ir + 1, l);
      j := j + 1;
    }
  }

  // ---------------------------------------------------------------- the partition step

  /** `t` with entries `p` and `q` exchanged. */
  ghost function Exchanged(t: seq<MdbId>, p: int, q: int): seq<MdbId>
    requires 0 <= p < |t| && 0 <= q < |t|
  {
    t[p := t[q]][q := t[p]]
  }

  method Swap(ids: array<MdbId>, p: CInt, q: CInt, ghost lo: int, ghost hi: int)
    requires 0 <= lo <= p < hi <= ids.Length && lo <= q < hi
    modifies ids
    ensures ids[..] == Exchanged(old(ids[..]), p, q)
    ensures SegPerm(old(ids[..]), ids[..], lo, hi)
  {
    var itmp := ids[p];
    ids[p] := ids[q];
    ids[q] := itmp;
  }

  /** Exchanges entries `p` and `q` if they are in rising order. */
  method OrderPair(ids: array<MdbId>, p: CInt, q: CInt, ghost lo: int, ghost hi: int)
    requires 0 <= lo <= p < hi <= ids.Length && lo <= q < hi && p != q
    modifies ids
    ensures if old(ids[p] < ids[q]) then ids[p] == old(ids[q]) && ids[q] == old(ids[p])
            else ids[p] == old(ids[p]) && ids[q] == old(ids[q])
    ensures forall x {:trigger ids[x]} :: 0 <= x < ids.Length && x != p && x != q ==> ids[x] == old(ids[x])
    ensures SegPerm(old(ids[..]), ids[..], lo, hi)
  {
    if ids[p] < ids[q] {
      ghost var t := ids[..];
      Swap(ids, p, q, lo, hi);
      assert forall x :: 0 <= x < ids.Length ==> ids[x] == Exchanged(t, p, q)[x];
    }
  }

  /** Brings the median of the left, centre and right entries to `l + 1`, the largest of the three
      to `l` and the smallest to `ir`: the sentinels of the two scans. */
  method MedianOfThree(ids: array<MdbId>, l: CInt, ir: CInt)
    requires 1 <= l && l + SMALL <= ir < ids.Length && l + ir < INT_LIMIT
    modifies ids
    ensures SegPerm(old(ids[..]), ids[..], l, ir + 1)
    ensures ids[l] >= ids[l + 1] >= ids[ir]
  {
    var sum: CInt := l + ir;
    var k := sum / 2;
    Swap(ids, k, l + 1, l, ir + 1);
    OrderPair(ids, l, ir, l, ir + 1);
    OrderPair(ids, l + 1, ir, l, ir + 1);
    OrderPair(ids, l, l + 1, l, ir + 1);
  }

  /** The upward scan: no bounds test, stopped by the first entry not above `a`. */
  method ScanUp(ids: array<MdbId>, i0: CInt, ghost stop: CInt, a: MdbId) returns (i: CInt)
    requires 0 <= i0 < stop < ids.Length && ids[stop] <= a
    ensures i0 < i <= stop && ids[i] <= a
    ensures AtLeast(ids[..], i0 + 1, i, a)
  {
    i := i0 + 1;
    while ids[i] > a
      invariant i0 < i <= stop
      invariant AtLeast(ids[..], i0 + 1, i, a)
      decreases stop - i
    {
      i := i + 1;
    }
  }

  /** The downward scan, stopped by the first entry not below `a`. */
  method ScanDown(ids: array<MdbId>, j0: CInt, ghost stop: CInt, a: MdbId) returns (j: CInt)
    requires 0 <= stop < j0 <= ids.Length && ids[stop] >= a
    ensures stop <= j < j0 && ids[j] >= a
    ensures AtMost(ids[..], j + 1, j0, a)
  {
    j := j0 - 1;
    while ids[j] < a
      invariant stop <= j < j0
      invariant AtMost(ids[..], j + 1, j0, a)
      decreases j
    {
      j := j - 1;
    }
  }

  /** What a finished partition of `[l, ir]` leaves: a block not below the pivot, a block equal to
      it, a block not above it. */
  ghost predicate Partitioned(s: seq<MdbId>, l: int, j: int, i: int, ir: int) {
    && 0 <= l < j < i <= ir < |s|
    && AtLeast(s, l, i, s[j])
    && AtMost(s, j, ir + 1, s[j])
  }

  /** Between two exchanges: everything up to `i` is at least the pivot, everything from `j` on at
      most the pivot, and the two scans have not met. */
  ghost predicate Scanning(s: seq<MdbId>, l: int, i: int, j: int, ir: int, a: MdbId) {
    && 1 <= l < i <= j <= ir < |s|
    && (i == j ==> l + 1 < i && j < ir)
    && s[l + 1] == a
    && AtLeast(s, l, i + 1, a)
    && AtMost(s, j, ir + 1, a)
  }

  /** The round has stopped at `i` and `j` before they met: exchanging the two restores the invariant. */
  lemma ExchangeKeepsScanning(t: seq<MdbId>, l: int, i0: int, i: int, j: int, ir: int, a: MdbId)
    requires 1 <= l < i0 < i <= j < ir < |t| && t[l + 1] == a
    requires AtLeast(t, l, i, a) && t[i] <= a
    requires AtMost(t, j + 1, ir + 1, a) && t[j] >= a
    ensures Scanning(Exchanged(t, i, j), l, i, j, ir, a)
  {
  }

  /** The scans have crossed: exchanging the pivot with entry `j` finishes the partition. */
  lemma ExchangePlacesPivot(t: seq<MdbId>, l: int, i: int, j: int, ir: int, a: MdbId)
    requires 1 <= l < j < i <= ir < |t| && t[l + 1] == a
    requires AtLeast(t, l, i, a) && AtMost(t, j + 1, ir + 1, a)
    ensures Partitioned(Exchanged(t, l + 1, j), l, j, i, ir)
  {
  }

  lemma ScanningStarts(t: seq<MdbId>, l: int, ir: int, a: MdbId)
    requires 1 <= l && l + SMALL <= ir < |t| && t[l] >= t[l + 1] >= t[ir] && a == t[l + 1]
    ensures Scanning(t, l, l + 1, ir, ir, a)
  {
  }

  /** The loop invariant of the partition of `s`, now rearranged to `t`. */
  ghost predicate Partitioning(s: seq<MdbId>, t: seq<MdbId>, l: int, i: int, j: int, ir: int, a: MdbId) {
    Scanning(t, l, i, j, ir, a) && SegPerm(s, t, l, ir + 1)
  }

  lemma PartitionGoesOn(s: seq<MdbId>, t: seq<MdbId>, u: seq<MdbId>, l: int, i0: int, i: int, j: int, ir: int, a: MdbId)
    requires 1 <= l < i0 < i <= j < ir < |t| && t[l + 1] == a
    requires AtLeast(t, l, i, a) && t[i] <= a
    requires AtMost(t, j + 1, ir + 1, a) && t[j] >= a
    requires SegPerm(s, t, l, ir + 1) && SegPerm(t, u, l, ir + 1) && u == Exchanged(t, i, j)
    ensures Partitioning(s, u, l, i, j, ir, a)
  {
    ExchangeKeepsScanning(t, l, i0, i, j, ir, a);
    SegPermTrans(s, t, u, l, ir + 1, l, ir + 1);
  }

  lemma PartitionEnds(s: seq<MdbId>, t: seq<MdbId>, u: seq<MdbId>, l: int, i: int, j: int, ir: int, a: MdbId)
    requires 1 <= l < j < i <= ir < |t| && t[l + 1] == a
    requires AtLeast(t, l, i, a) && AtMost(t, j + 1, ir + 1, a)
    requires SegPerm(s, t, l, ir + 1) && SegPerm(t, u, l, ir + 1) && u == Exchanged(t, l + 1, j)
    ensures Partitioned(u, l, j, i, ir) && SegPerm(s, u, l, ir + 1)
  {
    ExchangePlacesPivot(t, l, i, j, ir, a);
    SegPermTrans(s, t, u, l, ir + 1, l, ir + 1);
  }

  method Partition(ids: array<MdbId>, l: CInt, ir: CInt) returns (i: CInt, j: CInt)
    requires 1 <= l && l + SMALL <= ir < ids.Length && l + ir < INT_LIMIT
    modifies ids
    ensures SegPerm(old(ids[..]), ids[..], l, ir + 1)
    ensures Partitioned(ids[..], l, j, i, ir)
  {
    ghost var s := ids[..];
    MedianOfThree(ids, l, ir);
    i := l + 1;
    j := ir;
    var a := ids[l + 1];
    ScanningStarts(ids[..], l, ir, a);
    while true
      invariant Partitioning(s, ids[..], l, i, j, ir, a)
      decreases j - i + 2
    {
      ghost var i0, t := i, ids[..];
      i, j := ScanBoth(ids, l, i, j, ir, a);
      if j < i { break; }
      Swap(ids, i, j, l, ir + 1);
      PartitionGoesOn(s, t, ids[..], l, i0, i, j, ir, a);
    }
    ghost var t := ids[..];
    Swap(ids, l + 1, j, l, ir + 1);
    PartitionEnds(s, t, ids[..], l, i, j, ir, a);
  }

  /** One round of the two scans. Neither leaves `[l + 1, ir]`. */
  method ScanBoth(ids: array<MdbId>, l: CInt, i0: CInt, j0: CInt, ir: CInt, a: MdbId) returns (i: CInt, j: CInt)
    requires Scanning(ids[..], l, i0, j0, ir, a)
    ensures i0 < i <= ir && l < j < j0
    ensures AtLeast(ids[..], l, i, a) && ids[i] <= a
    ensures AtMost(ids[..], j + 1, ir + 1, a) && ids[j] >= a
  {
    i := ScanUp(ids, i0, if i0 < j0 then j0 else j0 + 1, a);
    j := ScanDown(ids, j0, if i0 < j0 then i0 else i0 - 1, a);
  }

  // ---------------------------------------------------------------- pending segments

  /** A stretch `[l, r]` still to be sorted. In the lemmas below `pend` lists the stacked segments,
      bottom first, and then the current one. */
  datatype Segment = Segment(l: int, r: int) {
    function Size(): int { r - l + 1 }
    predicate Inside(b: int) { l < b <= r }
    predicate Apart(g: Segment) { r < g.l || g.r < l }
  }

  ghost predicate Disjoint(pend: seq<Segment>) {
    forall m, m' :: 0 <= m < m' < |pend| ==> pend[m].Apart(pend[m'])
  }

  ghost predicate WithinList(pend: seq<Segment>, n: int) {
    forall m :: 0 <= m < |pend| ==> 1 <= pend[m].l <= pend[m].r + 1 <= n + 1
  }

  /** Every boundary that is not strictly inside a pending segment is already a cut. */
  ghost predicate CutsOutside(s: seq<MdbId>, n: int, pend: seq<Segment>)
    requires n < |s|
  {
    forall b :: 1 <= b <= n + 1 && OutsideAll(pend, b) ==> CutAt(s, n, b)
  }

  ghost predicate OutsideAll(pend: seq<Segment>, b: int) {
    forall m :: 0 <= m < |pend| ==> !pend[m].Inside(b)
  }

  /** With nothing pending, all boundaries are cuts: the list is sorted. */
  lemma NothingPendingMeansSorted(s: seq<MdbId>, n: int)
    requires 0 <= n < |s| && CutsOutside(s, n, [])
    ensures DescendingOn(s, 1, n + 1)
  {
    forall p, q | 1 <= p < q <= n ensures s[p] >= s[q] {
      assert OutsideAll([], q);
      assert CutAt(s, n, q);
    }
  }

  lemma BordersAreCuts(s: seq<MdbId>, n: int, pend: seq<Segment>, g: Segment)
    requires 0 <= n < |s| && WithinList(pend + [g], n) && Disjoint(pend + [g])
    requires CutsOutside(s, n, pend + [g])
    ensures CutAt(s, n, g.l) && CutAt(s, n, g.r + 1)
  {
    var all := pend + [g];
    assert all[|pend|] == g;
    forall b | b == g.l || b == g.r + 1 ensures CutAt(s, n, b) {
      forall m | 0 <= m < |all| ensures !all[m].Inside(b) {
        if m < |pend| { assert all[m].Apart(all[|pend|]); }
      }
      assert OutsideAll(all, b);
    }
  }

  /** A boundary outside the other pending segments stays a cut when the last one is rearranged,
      unless it lies strictly inside it. */
  lemma OuterCutKept(s: seq<MdbId>, t: seq<MdbId>, n: int, pend: seq<Segment>, g: Segment, b: int)
    requires 0 <= n < |s| && WithinList(pend + [g], n)
    requires CutsOutside(s, n, pend + [g])
    requires SegPerm(s, t, g.l, g.r + 1)
    requires 1 <= b <= n + 1 && OutsideAll(pend, b) && !g.Inside(b)
    ensures CutAt(t, n, b)
  {
    var all := pend + [g];
    assert all[|pend|] == g;
    assert OutsideAll(all, b);
    SegPermKeepsCut(s, t, n, g.l, g.r + 1, b);
  }

  lemma SortedSegmentIsDone(s: seq<MdbId>, t: seq<MdbId>, n: int, pend: seq<Segment>, g: Segment)
    requires 0 <= n < |s| && WithinList(pend + [g], n) && Disjoint(pend + [g])
    requires CutsOutside(s, n, pend + [g])
    requires SegPerm(s, t, g.l, g.r + 1)
    requires DescendingOn(t, g.l, g.r + 1)
    ensures CutsOutside(t, n, pend)
  {
    var all := pend + [g];
    assert all[|pend|] == g;
    BordersAreCuts(s, n, pend, g);
    SegPermKeepsCut(s, t, n, g.l, g.r + 1, g.l);
    SegPermKeepsCut(s, t, n, g.l, g.r + 1, g.r + 1);
    forall b | 1 <= b <= n + 1 && OutsideAll(pend, b) ensures CutAt(t, n, b) {
      if !g.Inside(b) { OuterCutKept(s, t, n, pend, g, b); }
    }
  }

  lemma PivotBlockIsCut(t: seq<MdbId>, n: int, g: Segment, j: int, i: int, b: int)
    requires 1 <= g.l <= g.r <= n < |t|
    requires CutAt(t, n, g.l) && CutAt(t, n, g.r + 1)
    requires Partitioned(t, g.l, j, i, g.r)
    requires j <= b <= i
    ensures CutAt(t, n, b)
  {
    forall x, y | 1 <= x < b <= y <= n ensures t[x] >= t[y] {
      assert t[x] >= t[j] by { if x < g.l { assert t[x] >= t[j]; } }
      assert t[j] >= t[y] by { if y > g.r { assert t[j] >= t[y]; } }
    }
  }

  /** After a partition only the two parts are pending: the pivots between them are placed. */
  lemma PartitionPlacesPivots(s: seq<MdbId>, t: seq<MdbId>, n: int, pend: seq<Segment>, g: Segment,
                              j: int, i: int, next: seq<Segment>)
    requires 0 <= n < |s| && WithinList(pend + [g], n) && Disjoint(pend + [g])
    requires CutsOutside(s, n, pend + [g])
    requires SegPerm(s, t, g.l, g.r + 1)
    requires Partitioned(t, g.l, j, i, g.r)
    requires next == [Segment(i, g.r), Segment(g.l, j - 1)] || next == [Segment(g.l, j - 1), Segment(i, g.r)]
    ensures WithinList(pend + next, n) && Disjoint(pend + next)
    ensures CutsOutside(t, n, pend + next)
  {
    var all, all' := pend + [g], pend + next;
    assert all[|pend|] == g;
    BordersAreCuts(s, n, pend, g);
    SegPermKeepsCut(s, t, n, g.l, g.r + 1, g.l);
    SegPermKeepsCut(s, t, n, g.l, g.r + 1, g.r + 1);
    forall m | 0 <= m < |all'| ensures 1 <= all'[m].l <= all'[m].r + 1 <= n + 1 {
      if m < |pend| { assert all'[m] == all[m]; }
    }
    forall m, m' | 0 <= m < m' < |all'| ensures all'[m].Apart(all'[m']) {
      if m < |pend| {
        assert all[m].Apart(all[if m' < |pend| then m' else |pend|]);
      }
    }
    forall b | 1 <= b <= n + 1 && OutsideAll(all', b) ensures CutAt(t, n, b) {
      assert !all'[|pend|].Inside(b) && !all'[|pend| + 1].Inside(b);
      forall m | 0 <= m < |pend| ensures !pend[m].Inside(b) {
        assert all'[m] == pend[m];
      }
      if g.Inside(b) {
        assert j <= b <= i;
        PivotBlockIsCut(t, n, g, j, i, b);
      } else {
        OuterCutKept(s, t, n, pend, g, b);
      }
    }
  }

  // ---------------------------------------------------------------- depth and termination

  function Pow2(k: nat): nat { if k == 0 then 1 else 2 * Pow2(k - 1) }

  /** Level by level the pending segments halve: the segment at level `m` has at most
      `n / 2^m` entries. */
  ghost predicate Halving(pend: seq<Segment>, n: int) {
    forall m :: 0 <= m < |pend| ==> pend[m].Size() * Pow2(m) <= n
  }

  lemma HalfFits(small: int, large: int, size: int, p: nat, n: int)
    requires 0 <= small <= large && large + small < size && size * p <= n
    ensures large * p <= n && small * (2 * p) <= n
  {
    MulMonotone(large, size, p);
    MulMonotone(2 * small, size, p);
    assert small * (2 * p) == 2 * small * p;
  }

  /** Pushing the larger part and keeping the smaller one preserves the halving. */
  lemma {:induction false} PushLargerKeepsHalving(pend: seq<Segment>, g: Segment,
                                                  larger: Segment, smaller: Segment, n: int)
    requires Halving(pend + [g], n)
    requires 0 <= smaller.Size() <= larger.Size()
    requires larger.Size() + smaller.Size() < g.Size()
    ensures Halving(pend + [larger, smaller], n)
  {
    var all, all', d := pend + [g], pend + [larger, smaller], |pend|;
    assert all[d].Size() * Pow2(d) <= n;
    HalfFits(smaller.Size(), larger.Size(), g.Size(), Pow2(d), n);
    forall m | 0 <= m < |all'| ensures all'[m].Size() * Pow2(m) <= n {
      if m < d { assert all[m].Size() * Pow2(m) <= n; }
    }
  }

  lemma {:induction false} Pow2Grows(j: nat, k: nat)
    requires j <= k
    ensures Pow2(j) <= Pow2(k)
  {
    if j < k { Pow2Grows(j, k - 1); }
  }

  /** A list of sortable length never uses more than 54 of the 64 stack slots: while a segment is
      long enough to be partitioned, at most 26 others are stacked. */
  lemma StackNeverOverflows(pend: seq<Segment>, n: int)
    requires n <= MAX_SORTABLE && |pend| >= 1 && Halving(pend, n)
    requires pend[|pend| - 1].Size() > SMALL
    ensures 2 * |pend| <= 54 < STACK_SLOTS
  {
    var d := |pend| - 1;
    if d >= 27 { DeepIsLong(pend[d].Size(), d); }
  }

  lemma DeepIsLong(size: int, d: nat)
    requires size > SMALL && d >= 27
    ensures size * Pow2(d) > MAX_SORTABLE
  {
    Pow2Grows(27, d);
    Pow2Of27();
    MulMonotone(9, size, Pow2(d));
  }

  lemma Pow2Of27()
    ensures Pow2(27) == 0x800_0000
  {
    assert Pow2(9) == 0x200;
    assert Pow2(18) == 0x4_0000;
  }

  /** The termination measure of the sort. */
  ghost function Weight(pend: seq<Segment>): nat {
    if pend == [] then 0
    else Weight(pend[..|pend| - 1]) + 2 * NonNeg(pend[|pend| - 1].Size()) + 1
  }

  ghost function NonNeg(x: int): nat { if x < 0 then 0 else x }

  lemma WeightPush(pend: seq<Segment>, g: Segment)
    ensures Weight(pend + [g]) == Weight(pend) + 2 * NonNeg(g.Size()) + 1
  {
    assert (pend + [g])[..|pend|] == pend;
  }

  lemma PartitionShrinksWeight(pend: seq<Segment>, g: Segment, larger: Segment, smaller: Segment)
    requires 0 <= smaller.Size() && 0 <= larger.Size()
    requires larger.Size() + smaller.Size() < g.Size()
    ensures Weight(pend + [larger, smaller]) < Weight(pend + [g])
  {
    WeightPush(pend, g);
    WeightPush(pend, larger);
    WeightPush(pend + [larger], smaller);
    assert pend + [larger] + [smaller] == pend + [larger, smaller];
  }

  // ---------------------------------------------------------------- the sort

  /** The explicit stack holds the pending segments except the current one, in slots 1, 2, 3, ... */
  ghost predicate OnStack(istack: array<CInt>, stack: seq<Segment>)
    reads istack
  {
    && 2 * |stack| < istack.Length
    && forall m :: 0 <= m < |stack| ==> istack[2 * m + 1] == stack[m].l && istack[2 * m + 2] == stack[m].r
  }

  method Push(istack: array<CInt>, jstack: CInt, l: CInt, r: CInt, ghost stack: seq<Segment>)
    requires OnStack(istack, stack) && 2 * |stack| + 2 == jstack < istack.Length
    modifies istack
    ensures OnStack(istack, stack + [Segment(l, r)])
  {
    istack[jstack] := r;
    istack[jstack - 1] := l;
  }

  method Pop(istack: array<CInt>, jstack: CInt, ghost stack: seq<Segment>) returns (l: CInt, r: CInt)
    requires OnStack(istack, stack) && 2 * |stack| == jstack && stack != []
    ensures OnStack(istack, stack[..|stack| - 1])
    ensures Segment(l, r) == stack[|stack| - 1]
  {
    assert stack[|stack| - 1] in stack;
    r := istack[jstack];
    l := istack[jstack - 1];
    assert istack[2 * (|stack| - 1) + 2] == stack[|stack| - 1].r;
  }

  /** What holds each time round the main loop. */
  ghost predicate SortState(s: seq<MdbId>, n: int, stack: seq<Segment>, cur: Segment) {
    && n < |s|
    && WithinList(stack + [cur], n)
    && Disjoint(stack + [cur])
    && CutsOutside(s, n, stack + [cur])
    && Halving(stack + [cur], n)
  }

  lemma InitialState(s: seq<MdbId>, n: int)
    requires 0 <= n < |s|
    ensures SortState(s, n, [], Segment(1, n))
  {
    var all := [] + [Segment(1, n)];
    assert all == [Segment(1, n)];
    forall b | 1 <= b <= n + 1 && OutsideAll(all, b) ensures CutAt(s, n, b) {
      assert !all[0].Inside(b);
    }
    assert Pow2(0) == 1;
  }

  /** What the loop body may rely on: the bounds of the current segment, the cut that stops the
      insertion scan at its left end, and room for two more stack slots. */
  lemma CurrentSegment(s: seq<MdbId>, n: int, stack: seq<Segment>, cur: Segment)
    requires 0 <= n < |s| && n <= MAX_SORTABLE && SortState(s, n, stack, cur)
    ensures 1 <= cur.l <= cur.r + 1 <= n + 1
    ensures CutAt(s, n, cur.l)
    ensures cur.Size() > SMALL ==> 2 * |stack| + 2 < STACK_SLOTS
  {
    var all := stack + [cur];
    assert all[|stack|] == cur;
    BordersAreCuts(s, n, stack, cur);
    if cur.Size() > SMALL { StackNeverOverflows(all, n); }
  }

  /** What holds of all pending segments holds of the stacked ones. */
  lemma StackedIsPending(n: int, stack: seq<Segment>, cur: Segment)
    requires WithinList(stack + [cur], n) && Disjoint(stack + [cur]) && Halving(stack + [cur], n)
    ensures WithinList(stack, n) && Disjoint(stack) && Halving(stack, n)
  {
    var all := stack + [cur];
    forall m | 0 <= m < |stack|
      ensures 1 <= stack[m].l <= stack[m].r + 1 <= n + 1 && stack[m].Size() * Pow2(m) <= n
    {
      assert all[m] == stack[m];
    }
    forall m, m' | 0 <= m < m' < |stack| ensures stack[m].Apart(stack[m']) {
      assert all[m].Apart(all[m']);
    }
  }

  lemma TopOfStack(t: seq<MdbId>, n: int, stack: seq<Segment>)
    requires n < |t| && stack != []
    requires WithinList(stack, n) && Disjoint(stack) && Halving(stack, n) && CutsOutside(t, n, stack)
    ensures stack == stack[..|stack| - 1] + [stack[|stack| - 1]]
    ensures SortState(t, n, stack[..|stack| - 1], stack[|stack| - 1])
  {
  }

  /** The current segment has been sorted in place: the top of the stack becomes current. */
  lemma FinishSegment(s: seq<MdbId>, t: seq<MdbId>, n: int, stack: seq<Segment>, cur: Segment)
    requires 0 <= n < |s| && SortState(s, n, stack, cur)
    requires SegPerm(s, t, cur.l, cur.r + 1)
    requires DescendingOn(t, cur.l, cur.r + 1)
    ensures stack == [] ==> DescendingOn(t, 1, n + 1)
    ensures stack != [] ==> SortState(t, n, stack[..|stack| - 1], stack[|stack| - 1])
    ensures stack != [] ==> stack == stack[..|stack| - 1] + [stack[|stack| - 1]]
    ensures Weight(stack) < Weight(stack + [cur])
  {
    SortedSegmentIsDone(s, t, n, stack, cur);
    StackedIsPending(n, stack, cur);
    WeightPush(stack, cur);
    if stack == [] {
      NothingPendingMeansSorted(t, n);
    } else {
      TopOfStack(t, n, stack);
    }
  }

  /** The current segment has been partitioned: the larger part is stacked, the smaller current. */
  lemma SplitSegment(s: seq<MdbId>, t: seq<MdbId>, n: int, stack: seq<Segment>, cur: Segment,
                     j: int, i: int, larger: Segment, smaller: Segment)
    requires 0 <= n < |s| && SortState(s, n, stack, cur)
    requires SegPerm(s, t, cur.l, cur.r + 1)
    requires Partitioned(t, cur.l, j, i, cur.r)
    requires [larger, smaller] == [Segment(i, cur.r), Segment(cur.l, j - 1)]
          || [larger, smaller] == [Segment(cur.l, j - 1), Segment(i, cur.r)]
    requires larger.Size() >= smaller.Size()
    ensures SortState(t, n, stack + [larger], smaller)
    ensures Weight(stack + [larger] + [smaller]) < Weight(stack + [cur])
  {
    PartitionPlacesPivots(s, t, n, stack, cur, j, i, [larger, smaller]);
    PushLargerKeepsHalving(stack, cur, larger, smaller, n);
    PartitionShrinksWeight(stack, cur, larger, smaller);
    assert stack + [larger] + [smaller] == stack + [larger, smaller];
  }

  /** The loop invariant of the sort: the list `u` is a rearrangement of `s` in sorting state. */
  ghost predicate Sorting(u: seq<MdbId>, s: seq<MdbId>, n: int, stack: seq<Segment>, cur: Segment) {
    && 0 <= n <= MAX_SORTABLE && n < |u|
    && SegPerm(s, u, 1, n + 1)
    && SortState(u, n, stack, cur)
  }

  ghost predicate StackHolds(istack: array<CInt>, jstack: int, stack: seq<Segment>)
    reads istack
  {
    istack.Length == STACK_SLOTS && OnStack(istack, stack) && jstack == 2 * |stack|
  }

  /** A segment of at most `SMALL` entries: sort it by insertion, then resume the one on top of the
      stack, if there is one. */
  method FinishSmall(ids: array<MdbId>, istack: array<CInt>, l: CInt, ir: CInt, jstack: CInt,
                     ghost s: seq<MdbId>, ghost n: int, ghost stack: seq<Segment>)
    returns (done: bool, l': CInt, ir': CInt)
    requires istack as object != ids
    requires StackHolds(istack, jstack, stack) && Sorting(ids[..], s, n, stack, Segment(l, ir))
    modifies ids
    ensures done <==> stack == []
    ensures done ==> SegPerm(s, ids[..], 1, n + 1) && DescendingOn(ids[..], 1, n + 1)
    ensures !done ==> StackHolds(istack, jstack - 2, stack[..|stack| - 1])
    ensures !done ==> Sorting(ids[..], s, n, stack[..|stack| - 1], Segment(l', ir'))
    ensures !done ==> Weight(stack[..|stack| - 1] + [Segment(l', ir')]) < Weight(stack + [Segment(l, ir)])
  {
    ghost var t, cur := ids[..], Segment(l, ir);
    CurrentSegment(t, n, stack, cur);
    InsertionPass(ids, n, l, ir);
    SegPermTrans(s, t, ids[..], 1, n + 1, l, ir + 1);
    FinishSegment(t, ids[..], n, stack, cur);
    done, l', ir' := jstack == 0, l, ir;
    if !done {
      l', ir' := Pop(istack, jstack, stack);
    }
  }

  /** A longer segment: partition it, stack the larger part and go on with the smaller one. */
  method SplitLarge(ids: array<MdbId>, istack: array<CInt>, l: CInt, ir: CInt, jstack: CInt,
                    ghost s: seq<MdbId>, ghost n: int, ghost stack: seq<Segment>)
    returns (l': CInt, ir': CInt, ghost pushed: Segment)
    requires istack as object != ids
    requires StackHolds(istack, jstack, stack) && Sorting(ids[..], s, n, stack, Segment(l, ir))
    requires ir - l >= SMALL
    modifies ids, istack
    ensures StackHolds(istack, jstack + 2, stack + [pushed])
    ensures Sorting(ids[..], s, n, stack + [pushed], Segment(l', ir'))
    ensures Weight(stack + [pushed] + [Segment(l', ir')]) < Weight(stack + [Segment(l, ir)])
  {
    CurrentSegment(ids[..], n, stack, Segment(l, ir));
    var i, j := PartitionSegment(ids, l, ir, s, n, stack);
    ghost var t := ids[..];
    l', ir', pushed := StackLarger(istack, l, ir, jstack, i, j, stack);
    assert ids[..] == t;
  }

  /** Two more stack slots are in use: the larger of `[i, ir]` and `[l, j - 1]` goes into them. */
  method StackLarger(istack: array<CInt>, l: CInt, ir: CInt, jstack: CInt, i: CInt, j: CInt, ghost stack: seq<Segment>)
    returns (l': CInt, ir': CInt, ghost pushed: Segment)
    requires StackHolds(istack, jstack, stack) && jstack + 2 < STACK_SLOTS
    requires 1 <= l < j < i <= ir
    modifies istack
    ensures StackHolds(istack, jstack + 2, stack + [pushed])
    ensures if ir - i + 1 >= j - l then pushed == Segment(i, ir) && Segment(l', ir') == Segment(l, j - 1)
            else pushed == Segment(l, j - 1) && Segment(l', ir') == Segment(i, ir)
  {
    if ir - i + 1 >= j - l {
      Push(istack, jstack + 2, i, ir, stack);
      l', ir', pushed := l, j - 1, Segment(i, ir);
    } else {
      Push(istack, jstack + 2, l, j - 1, stack);
      l', ir', pushed := i, ir, Segment(l, j - 1);
    }
  }

  /** The partition step, with what it means for the pending segments: whichever part is the larger
      may be stacked. */
  method PartitionSegment(ids: array<MdbId>, l: CInt, ir: CInt,
                          ghost s: seq<MdbId>, ghost n: int, ghost stack: seq<Segment>)
    returns (i: CInt, j: CInt)
    requires Sorting(ids[..], s, n, stack, Segment(l, ir)) && ir - l >= SMALL
    modifies ids
    ensures n < ids.Length && SegPerm(s, ids[..], 1, n + 1)
    ensures ir - i + 1 >= j - l ==> Stacked(ids[..], n, stack, Segment(l, ir), Segment(i, ir), Segment(l, j - 1))
    ensures ir - i + 1 < j - l ==> Stacked(ids[..], n, stack, Segment(l, ir), Segment(l, j - 1), Segment(i, ir))
    ensures l < j < i <= ir
  {
    ghost var t, cur := ids[..], Segment(l, ir);
    CurrentSegment(t, n, stack, cur);
    i, j := Partition(ids, l, ir);
    SegPermTrans(s, t, ids[..], 1, n + 1, l, ir + 1);
    if ir - i + 1 >= j - l {
      SplitSegment(t, ids[..], n, stack, cur, j, i, Segment(i, ir), Segment(l, j - 1));
    } else {
      SplitSegment(t, ids[..], n, stack, cur, j, i, Segment(l, j - 1), Segment(i, ir));
    }
  }

  /** The state after stacking one part of a segment and making the other current. */
  ghost predicate Stacked(s: seq<MdbId>, n: int, stack: seq<Segment>, cur: Segment, pushed: Segment, next: Segment) {
    SortState(s, n, stack + [pushed], next) && Weight(stack + [pushed] + [next]) < Weight(stack + [cur])
  }

  /** `mdb_midl_sort`: afterwards entries 1 to `ids[0]` are a descending rearrangement of what they
      were, and nothing else has changed. */
  method Sort(ids: array<MdbId>)
    requires 1 <= ids.Length && ids[0] < ids.Length && ids[0] <= MAX_SORTABLE
    modifies ids
    ensures ids[0] == old(ids[0])
    ensures SegPerm(old(ids[..]), ids[..], 1, ids[0] + 1)
    ensures DescendingOn(ids[..], 1, ids[0] + 1)
  {
    ghost var s, n := ids[..], ids[0];
    var istack := new CInt[STACK_SLOTS];
    var ir: CInt := ids[0];
    var l: CInt := 1;
    var jstack: CInt := 0;
    ghost var stack: seq<Segment> := [];
    InitialState(s, n);
    var done := false;
    while !done
      invariant fresh(istack)
      invariant !done ==> StackHolds(istack, jstack, stack) && Sorting(ids[..], s, n, stack, Segment(l, ir))
      invariant done ==> SegPerm(s, ids[..], 1, n + 1) && DescendingOn(ids[..], 1, n + 1)
      decreases !done, Weight(stack + [Segment(l, ir)])
    {
      if ir - l < SMALL {
        done, l, ir := FinishSmall(ids, istack, l, ir, jstack, s, n, stack);
        if !done {
          jstack := jstack - 2;
          stack := stack[..|stack| - 1];
        }
      } else {
        ghost var pushed;
        l, ir, pushed := SplitLarge(ids, istack, l, ir, jstack, s, n, stack);
        jstack := jstack + 2;
        stack := stack + [pushed];
      }
    }
  }
}
