/** The reference counters of the range-count tests and benchmarks: cursor walks over a sorted
    multimap (mtest_count.c, count_bench.c), all equal to one declarative count. */
module RangeCount {
  import opened CTypes
  import opened Encoding
  import opened ByteOrder

  /** A key with its sorted duplicates. */
  datatype Entry = Entry(key: Bytes, dups: seq<Bytes>)

  type Multimap = seq<Entry>

  ghost predicate Sorted(db: Multimap, cmp: Compare) {
    forall i, j :: 0 <= i < j < |db| ==> cmp(db[i].key, db[j].key) < 0
  }

  ghost predicate NoEmptyKeys(db: Multimap) {
    forall i :: 0 <= i < |db| ==> db[i].dups != []
  }

  /** Optional bounds with their inclusivity flags. */
  datatype Range = Range(low: Option<Bytes>, high: Option<Bytes>, lowerIncl: bool, upperIncl: bool)

  predicate BelowLow(cmp: Compare, r: Range, key: Bytes) {
    r.low.Some? && (cmp(key, r.low.value) < 0 || (cmp(key, r.low.value) == 0 && !r.lowerIncl))
  }

  predicate AboveHigh(cmp: Compare, r: Range, key: Bytes) {
    r.high.Some? && (cmp(key, r.high.value) > 0 || (cmp(key, r.high.value) == 0 && !r.upperIncl))
  }

  predicate InRange(cmp: Compare, r: Range, key: Bytes) {
    !BelowLow(cmp, r, key) && !AboveHigh(cmp, r, key)
  }

  /** On keys in byte order: strictly between the bounds there are, or on one that is inclusive. */
  lemma InRangeMeans(r: Range, key: Bytes)
    ensures InRange(CmpKey, r, key)
       <==> && (r.low.Some? ==> Lex(r.low.value, key) < 0 || (key == r.low.value && r.lowerIncl))
            && (r.high.Some? ==> Lex(key, r.high.value) < 0 || (key == r.high.value && r.upperIncl))
  {
    if r.low.Some? {
      CmpKeyIsLex(key, r.low.value);
      LexLaws(key, r.low.value);
      LexLaws(r.low.value, key);
    }
    if r.high.Some? {
      CmpKeyIsLex(key, r.high.value);
      LexLaws(key, r.high.value);
    }
  }

  /** The keys a count compares: those of the multimap and the bounds. */
  ghost function Compared(db: Multimap, r: Range): (keys: set<Bytes>)
    ensures forall i :: 0 <= i < |db| ==> db[i].key in keys
    ensures r.low.Some? ==> r.low.value in keys
    ensures r.high.Some? ==> r.high.value in keys
  {
    (set i | 0 <= i < |db| :: db[i].key)
    + (if r.low.Some? then {r.low.value} else {})
    + (if r.high.Some? then {r.high.value} else {})
  }

  /** The multimap is sorted by `cmp`, which is a total order on the keys compared. */
  ghost predicate Countable(db: Multimap, cmp: Compare, r: Range) {
    TotalOrderOn(cmp, Compared(db, r)) && Sorted(db, cmp)
  }

  // ---------------------------------------------------------------- the declarative counts

  /** The pairs of the multimap in range, by position. */
  ghost function PairsInRange(db: Multimap, cmp: Compare, r: Range): set<(int, int)> {
    set i, d | 0 <= i < |db| && 0 <= d < |db[i].dups| && InRange(cmp, r, db[i].key) :: (i, d)
  }

  ghost function KeysInRange(db: Multimap, cmp: Compare, r: Range): set<int> {
    set i | 0 <= i < |db| && InRange(cmp, r, db[i].key)
  }

  /** The pairs in range among the first `n` keys, summed up. */
  ghost function SumPairs(db: Multimap, cmp: Compare, r: Range, n: nat): nat
    requires n <= |db|
  {
    if n == 0 then 0
    else SumPairs(db, cmp, r, n - 1) + if InRange(cmp, r, db[n - 1].key) then |db[n - 1].dups| else 0
  }

  ghost function SumKeys(db: Multimap, cmp: Compare, r: Range, n: nat): nat
    requires n <= |db|
  {
    if n == 0 then 0
    else SumKeys(db, cmp, r, n - 1) + if InRange(cmp, r, db[n - 1].key) then 1 else 0
  }

  ghost function PairsUpTo(db: Multimap, cmp: Compare, r: Range, n: nat): set<(int, int)>
    requires n <= |db|
  {
    set i, d | 0 <= i < n && 0 <= d < |db[i].dups| && InRange(cmp, r, db[i].key) :: (i, d)
  }

  lemma {:induction false} RowSize(i: int, m: nat)
    ensures |set d | 0 <= d < m :: (i, d)| == m
  {
    if m > 0 {
      RowSize(i, m - 1);
      assert (set d | 0 <= d < m :: (i, d)) == (set d | 0 <= d < m - 1 :: (i, d)) + {(i, m - 1)};
    } else {
      assert (set d | 0 <= d < 0 :: (i, d)) == {};
    }
  }

  ghost function Row(db: Multimap, cmp: Compare, r: Range, n: nat): set<(int, int)>
    requires n < |db|
  {
    if InRange(cmp, r, db[n].key) then set d | 0 <= d < |db[n].dups| :: (n, d) else {}
  }

  lemma NoPairsYet(db: Multimap, cmp: Compare, r: Range)
    ensures PairsUpTo(db, cmp, r, 0) == {}
  {
  }

  lemma RowCount(db: Multimap, cmp: Compare, r: Range, n: nat)
    requires n < |db|
    ensures |Row(db, cmp, r, n)| == if InRange(cmp, r, db[n].key) then |db[n].dups| else 0
  {
    RowSize(n, |db[n].dups|);
  }

  lemma SizeOfDisjointUnion(a: set<(int, int)>, b: set<(int, int)>)
    requires a !! b
    ensures |a + b| == |a| + |b|
  {
  }

  lemma PairsUpToNext(db: Multimap, cmp: Compare, r: Range, n: nat)
    requires n < |db|
    ensures PairsUpTo(db, cmp, r, n + 1) == PairsUpTo(db, cmp, r, n) + Row(db, cmp, r, n)
    ensures PairsUpTo(db, cmp, r, n) !! Row(db, cmp, r, n)
  {
  }

  lemma PairsUpToCount(db: Multimap, cmp: Compare, r: Range, n: nat)
    requires n < |db|
    ensures |PairsUpTo(db, cmp, r, n + 1)|
         == |PairsUpTo(db, cmp, r, n)| + if InRange(cmp, r, db[n].key) then |db[n].dups| else 0
  {
    RowCount(db, cmp, r, n);
    PairsUpToNext(db, cmp, r, n);
    SizeOfDisjointUnion(PairsUpTo(db, cmp, r, n), Row(db, cmp, r, n));
  }

  lemma {:induction false} SumCountsPairsUpTo(db: Multimap, cmp: Compare, r: Range, n: nat)
    requires n <= |db|
    ensures SumPairs(db, cmp, r, n) == |PairsUpTo(db, cmp, r, n)|
  {
    if n == 0 {
      NoPairsYet(db, cmp, r);
    } else {
      SumCountsPairsUpTo(db, cmp, r, n - 1);
      PairsUpToCount(db, cmp, r, n - 1);
    }
  }

  /** The per-key sums count exactly the pairs in range. */
  lemma SumCountsPairs(db: Multimap, cmp: Compare, r: Range)
    ensures SumPairs(db, cmp, r, |db|) == |PairsInRange(db, cmp, r)|
  {
    SumCountsPairsUpTo(db, cmp, r, |db|);
    assert PairsUpTo(db, cmp, r, |db|) == PairsInRange(db, cmp, r);
  }

  ghost function KeysUpTo(db: Multimap, cmp: Compare, r: Range, n: nat): set<int>
    requires n <= |db|
  {
    set i | 0 <= i < n && InRange(cmp, r, db[i].key)
  }

  lemma KeysUpToNext(db: Multimap, cmp: Compare, r: Range, n: nat)
    requires n < |db|
    ensures KeysUpTo(db, cmp, r, n + 1)
         == KeysUpTo(db, cmp, r, n) + if InRange(cmp, r, db[n].key) then {n} else {}
  {
  }

  lemma NoKeysYet(db: Multimap, cmp: Compare, r: Range)
    ensures KeysUpTo(db, cmp, r, 0) == {}
  {
  }

  lemma {:induction false} SumCountsKeysUpTo(db: Multimap, cmp: Compare, r: Range, n: nat)
    requires n <= |db|
    ensures SumKeys(db, cmp, r, n) == |KeysUpTo(db, cmp, r, n)|
  {
    if n > 0 {
      SumCountsKeysUpTo(db, cmp, r, n - 1);
      KeysUpToNext(db, cmp, r, n - 1);
    } else {
      NoKeysYet(db, cmp, r);
    }
  }

  lemma SumCountsKeys(db: Multimap, cmp: Compare, r: Range)
    ensures SumKeys(db, cmp, r, |db|) == |KeysInRange(db, cmp, r)|
  {
    SumCountsKeysUpTo(db, cmp, r, |db|);
    assert KeysUpTo(db, cmp, r, |db|) == KeysInRange(db, cmp, r);
  }

  // ---------------------------------------------------------------- where a walk may start and stop

  /** A range cuts a sorted multimap into three stretches: below, inside, above. */
  ghost predicate IsInterval(db: Multimap, cmp: Compare, r: Range) {
    && (forall k, j :: 0 <= k <= j < |db| && AboveHigh(cmp, r, db[k].key) ==> AboveHigh(cmp, r, db[j].key))
    && (forall k, j :: 0 <= k <= j < |db| && BelowLow(cmp, r, db[j].key) ==> BelowLow(cmp, r, db[k].key))
  }

  lemma SortedMakesIntervals(db: Multimap, cmp: Compare, r: Range)
    requires Countable(db, cmp, r)
    ensures IsInterval(db, cmp, r)
  {
    forall k, j | 0 <= k <= j < |db| && AboveHigh(cmp, r, db[k].key) ensures AboveHigh(cmp, r, db[j].key) {
      if k < j {
        assert cmp(db[k].key, db[j].key) < 0;
        var high := r.high.value;
        assert cmp(high, db[k].key) <= 0;
        assert cmp(high, db[j].key) < 0;
      }
    }
    forall k, j | 0 <= k <= j < |db| && BelowLow(cmp, r, db[j].key) ensures BelowLow(cmp, r, db[k].key) {
      if k < j {
        assert cmp(db[k].key, db[j].key) < 0;
        assert cmp(db[j].key, r.low.value) <= 0;
      }
    }
  }

  /** A walk that stops at key `k`, the first above the bound, has counted everything. */
  lemma {:induction false} NothingAbove(db: Multimap, cmp: Compare, r: Range, k: nat, n: nat)
    requires IsInterval(db, cmp, r) && k <= n <= |db|
    requires k < |db| ==> AboveHigh(cmp, r, db[k].key)
    ensures SumPairs(db, cmp, r, n) == SumPairs(db, cmp, r, k)
    ensures SumKeys(db, cmp, r, n) == SumKeys(db, cmp, r, k)
    decreases n
  {
    if k < n { NothingAbove(db, cmp, r, k, n - 1); }
  }

  /** A walk that starts at key `k`, with only keys below the bound before it, misses nothing. */
  lemma {:induction false} NothingBelow(db: Multimap, cmp: Compare, r: Range, k: nat)
    requires k <= |db| && forall i :: 0 <= i < k ==> BelowLow(cmp, r, db[i].key)
    ensures SumPairs(db, cmp, r, k) == 0
  {
    if k > 0 { NothingBelow(db, cmp, r, k - 1); }
  }

  /** Bounds in the wrong order, or equal and not both inclusive. */
  predicate EmptyRange(cmp: Compare, r: Range) {
    r.low.Some? && r.high.Some? &&
      var c := cmp(r.low.value, r.high.value);
      c > 0 || (c == 0 && !(r.lowerIncl && r.upperIncl))
  }

  lemma NotBetween(cmp: Compare, r: Range, keys: set<Bytes>, key: Bytes)
    requires TotalOrderOn(cmp, keys) && EmptyRange(cmp, r)
    requires key in keys && r.low.value in keys && r.high.value in keys
    ensures !InRange(cmp, r, key)
  {
    var low, high := r.low.value, r.high.value;
    assert cmp(low, key) < 0 <==> cmp(key, low) > 0;
    assert cmp(low, key) > 0 <==> cmp(key, low) < 0;
    assert cmp(low, key) < 0 && cmp(key, high) <= 0 ==> cmp(low, high) < 0;
    assert cmp(low, key) <= 0 && cmp(key, high) < 0 ==> cmp(low, high) < 0;
  }

  /** Reversed bounds, and equal bounds that are not both inclusive, select nothing. */
  lemma {:induction false} NothingBetween(db: Multimap, cmp: Compare, r: Range, n: nat)
    requires TotalOrderOn(cmp, Compared(db, r)) && n <= |db| && EmptyRange(cmp, r)
    ensures SumPairs(db, cmp, r, n) == 0
  {
    if n > 0 {
      NotBetween(cmp, r, Compared(db, r), db[n - 1].key);
      NothingBetween(db, cmp, r, n - 1);
    }
  }

  // ---------------------------------------------------------------- the cursor

  /** A cursor over the multimap: positioned at duplicate `d` of key `k`, or past the end. */
  class Cursor {
    const db: Multimap
    const cmp: Compare
    var k: nat
    var d: nat

    constructor (db: Multimap, cmp: Compare)
      requires NoEmptyKeys(db)
      ensures this.db == db && this.cmp == cmp && Valid()
    {
      this.db := db;
      this.cmp := cmp;
      k, d := |db|, 0;
    }

    ghost predicate Valid()
      reads this
    {
      NoEmptyKeys(db) && k <= |db| && d <= (if k < |db| then |db[k].dups| - 1 else 0)
    }

    /** The key at the cursor, `None` for `MDB_NOTFOUND`. */
    function Key(): Option<Bytes>
      reads this
    {
      if k < |db| then Some(db[k].key) else None
    }

    /** `MDB_FIRST` */
    method First() returns (key: Option<Bytes>)
      requires Valid()
      modifies this
      ensures Valid() && k == 0 && d == 0 && key == Key()
    {
      k, d := 0, 0;
      key := Key();
    }

    /** `MDB_NEXT` */
    method Next() returns (key: Option<Bytes>)
      requires Valid() && k < |db|
      modifies this
      ensures Valid() && key == Key()
      ensures if old(d) + 1 < |db[old(k)].dups| then k == old(k) && d == old(d) + 1 else k == old(k) + 1 && d == 0
    {
      if d + 1 < |db[k].dups| {
        d := d + 1;
      } else {
        k, d := k + 1, 0;
      }
      key := Key();
    }

    /** `MDB_NEXT_NODUP` */
    method NextNoDup() returns (key: Option<Bytes>)
      requires Valid() && k < |db|
      modifies this
      ensures Valid() && key == Key() && k == old(k) + 1 && d == 0
    {
      k, d := k + 1, 0;
      key := Key();
    }

    /** `MDB_SET_RANGE`: the first key not less than `low`. */
    method SetRange(low: Bytes) returns (key: Option<Bytes>)
      requires Valid()
      modifies this
      ensures Valid() && d == 0 && key == Key()
      ensures forall i :: 0 <= i < k ==> cmp(db[i].key, low) < 0
      ensures k < |db| ==> cmp(db[k].key, low) >= 0
    {
      k, d := 0, 0;
      while k < |db| && cmp(db[k].key, low) < 0
        invariant Valid() && d == 0
        invariant forall i :: 0 <= i < k ==> cmp(db[i].key, low) < 0
        decreases |db| - k
      {
        k := k + 1;
      }
      key := Key();
    }

    /** `mdb_cursor_count` */
    function Count(): nat
      requires Valid() && k < |db|
      reads this
    {
      |db[k].dups|
    }
  }

  // ---------------------------------------------------------------- the full-scan counters

  /** Pairs counted when the cursor stands at duplicate `d` of key `k`. */
  ghost function Passed(db: Multimap, cmp: Compare, r: Range, k: nat, d: nat): nat
    requires k <= |db|
  {
    SumPairs(db, cmp, r, k) + if k < |db| && InRange(cmp, r, db[k].key) then d else 0
  }

  /** Visiting a pair passes it. */
  lemma PassedNext(db: Multimap, cmp: Compare, r: Range, k: nat, d: nat)
    requires k < |db| && d < |db[k].dups|
    ensures (if d + 1 < |db[k].dups| then Passed(db, cmp, r, k, d + 1) else Passed(db, cmp, r, k + 1, 0))
         == Passed(db, cmp, r, k, d) + if InRange(cmp, r, db[k].key) then 1 else 0
  {
  }

  /** Pairs left to visit. */
  ghost function Left(cur: Cursor): (int, int)
    reads cur
  {
    (|cur.db| - cur.k, if cur.k < |cur.db| then |cur.db[cur.k].dups| - cur.d else 0)
  }

  /** The two tests of the full-scan counters: whether the key counts, and whether to stop. */
  method TestKey(cmp: Compare, r: Range, key: Bytes) returns (counts: bool, past: bool)
    ensures counts == !BelowLow(cmp, r, key) && past == AboveHigh(cmp, r, key)
  {
    counts, past := true, false;
    if r.low.Some? {
      var c := cmp(key, r.low.value);
      if c < 0 || (c == 0 && !r.lowerIncl) { counts := false; }
    }
    if r.high.Some? {
      var c := cmp(key, r.high.value);
      if c > 0 || (c == 0 && !r.upperIncl) { past := true; }
    }
  }

  /** The loop of `naive_count` (mtest_count.c). */
  method ScanPairs(cur: Cursor, r: Range) returns (total: nat)
    requires cur.Valid() && IsInterval(cur.db, cur.cmp, r)
    modifies cur
    ensures total == SumPairs(cur.db, cur.cmp, r, |cur.db|)
  {
    total := 0;
    var key := cur.First();
    while key.Some?
      invariant cur.Valid() && key == cur.Key()
      invariant total == Passed(cur.db, cur.cmp, r, cur.k, cur.d)
      decreases Left(cur).0, Left(cur).1
    {
      var counts, past := TestKey(cur.cmp, r, key.value);
      if past { break; }
      PassedNext(cur.db, cur.cmp, r, cur.k, cur.d);
      if counts { total := total + 1; }
      key := cur.Next();
    }
    NothingAbove(cur.db, cur.cmp, r, cur.k, |cur.db|);
  }

  /** `naive_count` of mtest_count.c */
  method NaiveCount(cur: Cursor, r: Range) returns (total: nat)
    requires cur.Valid() && Countable(cur.db, cur.cmp, r)
    modifies cur
    ensures total == |PairsInRange(cur.db, cur.cmp, r)|
  {
    SortedMakesIntervals(cur.db, cur.cmp, r);
    SumCountsPairs(cur.db, cur.cmp, r);
    total := ScanPairs(cur, r);
  }

  method ScanKeys(cur: Cursor, r: Range) returns (total: nat)
    requires cur.Valid() && IsInterval(cur.db, cur.cmp, r)
    modifies cur
    ensures total == SumKeys(cur.db, cur.cmp, r, |cur.db|)
  {
    total := 0;
    var key := cur.First();
    while key.Some?
      invariant cur.Valid() && key == cur.Key()
      invariant total == SumKeys(cur.db, cur.cmp, r, cur.k)
      decreases |cur.db| - cur.k
    {
      var counts, past := TestKey(cur.cmp, r, key.value);
      if past { break; }
      if counts { total := total + 1; }
      key := cur.NextNoDup();
    }
    NothingAbove(cur.db, cur.cmp, r, cur.k, |cur.db|);
  }

  /** `naive_count_keys_only` */
  method NaiveCountKeysOnly(cur: Cursor, r: Range) returns (total: nat)
    requires cur.Valid() && Countable(cur.db, cur.cmp, r)
    modifies cur
    ensures total == |KeysInRange(cur.db, cur.cmp, r)|
  {
    SortedMakesIntervals(cur.db, cur.cmp, r);
    SumCountsKeys(cur.db, cur.cmp, r);
    total := ScanKeys(cur, r);
  }

  /** The upper bound is looked at only for keys that pass the lower one. */
  method ScanDupCounts(cur: Cursor, r: Range) returns (total: nat)
    requires cur.Valid() && IsInterval(cur.db, cur.cmp, r)
    modifies cur
    ensures total == SumPairs(cur.db, cur.cmp, r, |cur.db|)
  {
    total := 0;
    var key := cur.First();
    while key.Some?
      invariant cur.Valid() && key == cur.Key()
      invariant total == SumPairs(cur.db, cur.cmp, r, cur.k)
      decreases |cur.db| - cur.k
    {
      var counts := true;
      if r.low.Some? {
        var c := cur.cmp(key.value, r.low.value);
        if c < 0 || (c == 0 && !r.lowerIncl) { counts := false; }
      }
      if counts && r.high.Some? {
        var c := cur.cmp(key.value, r.high.value);
        if c > 0 || (c == 0 && !r.upperIncl) { break; }
      }
      if counts {
        var dupcount := cur.Count();
        total := total + dupcount;
      }
      key := cur.NextNoDup();
    }
    NothingAbove(cur.db, cur.cmp, r, cur.k, |cur.db|);
  }

  /** `naive_count_values` */
  method NaiveCountValues(cur: Cursor, r: Range) returns (total: nat)
    requires cur.Valid() && Countable(cur.db, cur.cmp, r)
    modifies cur
    ensures total == |PairsInRange(cur.db, cur.cmp, r)|
  {
    SortedMakesIntervals(cur.db, cur.cmp, r);
    SumCountsPairs(cur.db, cur.cmp, r);
    total := ScanDupCounts(cur, r);
  }

  // ---------------------------------------------------------------- the seek-based counters

  /** The start: no key in front of the cursor is in range. */
  method SeekFirst(cur: Cursor, r: Range) returns (key: Option<Bytes>)
    requires cur.Valid()
    modifies cur
    ensures cur.Valid() && key == cur.Key() && cur.d == 0
    ensures SumPairs(cur.db, cur.cmp, r, cur.k) == 0
  {
    if r.low.Some? {
      key := cur.SetRange(r.low.value);
    } else {
      key := cur.First();
    }
    NothingBelow(cur.db, cur.cmp, r, cur.k);
  }

  /** `naive_count` of count_bench.c after its test for reversed bounds: both bounds inclusive. */
  method SeekAndScan(cur: Cursor, r: Range) returns (total: nat)
    requires cur.Valid() && r.lowerIncl && r.upperIncl
    requires IsInterval(cur.db, cur.cmp, r)
    modifies cur
    ensures total == SumPairs(cur.db, cur.cmp, r, |cur.db|)
  {
    total := 0;
    var key := SeekFirst(cur, r);
    while key.Some?
      invariant cur.Valid() && key == cur.Key()
      invariant total == Passed(cur.db, cur.cmp, r, cur.k, cur.d)
      decreases Left(cur).0, Left(cur).1
    {
      if r.low.None? || cur.cmp(key.value, r.low.value) >= 0 {
        if r.high.Some? && cur.cmp(key.value, r.high.value) > 0 { break; }
        total := total + 1;
      }
      PassedNext(cur.db, cur.cmp, r, cur.k, cur.d);
      key := cur.Next();
    }
    NothingAbove(cur.db, cur.cmp, r, cur.k, |cur.db|);
  }

  /** `naive_count` of count_bench.c, on keys in byte order. */
  method BenchNaiveCount(cur: Cursor, low: Option<Bytes>, high: Option<Bytes>) returns (total: nat)
    requires cur.Valid() && cur.cmp == CmpKey && Sorted(cur.db, CmpKey)
    modifies cur
    ensures total == |PairsInRange(cur.db, CmpKey, Range(low, high, true, true))|
  {
    var r := Range(low, high, true, true);
    CmpKeyIsTotalOrder(Compared(cur.db, r));
    SortedMakesIntervals(cur.db, CmpKey, r);
    SumCountsPairs(cur.db, CmpKey, r);
    if low.Some? && high.Some? && CmpKey(low.value, high.value) > 0 {
      NothingBetween(cur.db, CmpKey, r, |cur.db|);
      return 0;
    }
    total := SeekAndScan(cur, r);
  }

  /** Behind a key equal to the lower bound, all keys are above it. */
  ghost predicate OnceEqual(db: Multimap, cmp: Compare, r: Range) {
    r.low.Some? ==>
      forall i, j :: 0 <= i < j < |db| && cmp(db[i].key, r.low.value) == 0 ==> cmp(db[j].key, r.low.value) > 0
  }

  lemma EqualAtMostOnce(db: Multimap, cmp: Compare, r: Range)
    requires Countable(db, cmp, r)
    ensures OnceEqual(db, cmp, r)
  {
    if r.low.Some? {
      var low := r.low.value;
      forall i, j | 0 <= i < j < |db| && cmp(db[i].key, low) == 0 ensures cmp(db[j].key, low) > 0 {
        assert cmp(db[i].key, db[j].key) < 0;
        assert cmp(low, db[i].key) <= 0;
      }
    }
  }

  /** The start of `cursor_count_values`: the first key that is not below the lower bound. */
  method SeekLow(cur: Cursor, r: Range) returns (key: Option<Bytes>)
    requires cur.Valid() && IsInterval(cur.db, cur.cmp, r) && OnceEqual(cur.db, cur.cmp, r)
    modifies cur
    ensures cur.Valid() && key == cur.Key()
    ensures SumPairs(cur.db, cur.cmp, r, cur.k) == 0
    ensures forall i :: cur.k <= i < |cur.db| ==> !BelowLow(cur.cmp, r, cur.db[i].key)
  {
    if r.low.Some? {
      key := cur.SetRange(r.low.value);
      if key.Some? && !r.lowerIncl && cur.cmp(key.value, r.low.value) == 0 {
        key := cur.NextNoDup();
      }
    } else {
      key := cur.First();
    }
    NothingBelow(cur.db, cur.cmp, r, cur.k);
  }

  method SumDupCounts(cur: Cursor, r: Range, key0: Option<Bytes>) returns (total: nat)
    requires cur.Valid() && key0 == cur.Key() && IsInterval(cur.db, cur.cmp, r)
    requires SumPairs(cur.db, cur.cmp, r, cur.k) == 0
    requires forall i :: cur.k <= i < |cur.db| ==> !BelowLow(cur.cmp, r, cur.db[i].key)
    modifies cur
    ensures total == SumPairs(cur.db, cur.cmp, r, |cur.db|)
  {
    total := 0;
    var key := key0;
    while key.Some?
      invariant cur.Valid() && key == cur.Key() && old(cur.k) <= cur.k
      invariant total == SumPairs(cur.db, cur.cmp, r, cur.k)
      decreases |cur.db| - cur.k
    {
      if r.high.Some? {
        var c := cur.cmp(key.value, r.high.value);
        if c > 0 || (c == 0 && !r.upperIncl) { break; }
      }
      var dupcount := cur.Count();
      total := total + dupcount;
      key := cur.NextNoDup();
    }
    NothingAbove(cur.db, cur.cmp, r, cur.k, |cur.db|);
  }

  /** What the counter needs to know about the multimap. */
  lemma CountableFacts(db: Multimap, cmp: Compare, r: Range)
    requires Countable(db, cmp, r)
    ensures IsInterval(db, cmp, r) && OnceEqual(db, cmp, r)
    ensures SumPairs(db, cmp, r, |db|) == |PairsInRange(db, cmp, r)|
    ensures EmptyRange(cmp, r) ==> SumPairs(db, cmp, r, |db|) == 0
  {
    SortedMakesIntervals(db, cmp, r);
    EqualAtMostOnce(db, cmp, r);
    SumCountsPairs(db, cmp, r);
    if EmptyRange(cmp, r) { NothingBetween(db, cmp, r, |db|); }
  }

  /** The part of `cursor_count_values` behind its early answers. */
  method SeekAndSum(cur: Cursor, r: Range) returns (total: nat)
    requires cur.Valid() && IsInterval(cur.db, cur.cmp, r) && OnceEqual(cur.db, cur.cmp, r)
    modifies cur
    ensures total == SumPairs(cur.db, cur.cmp, r, |cur.db|)
  {
    var key := SeekLow(cur, r);
    if key.None? { return 0; }
    total := SumDupCounts(cur, r, key);
  }

  /** `cursor_count_values` of count_bench.c, with its early answers for empty ranges. */
  method CursorCountValues(cur: Cursor, r: Range) returns (total: nat)
    requires cur.Valid() && Countable(cur.db, cur.cmp, r)
    modifies cur
    ensures total == |PairsInRange(cur.db, cur.cmp, r)|
  {
    CountableFacts(cur.db, cur.cmp, r);
    if EmptyRange(cur.cmp, r) { return 0; }
    total := SeekAndSum(cur, r);
  }

  // ---------------------------------------------------------------- the comparison does not matter

  /** Two comparisons that order the keys and bounds alike select the same pairs and keys. */
  lemma SameOrderSameCount(db: Multimap, cmp: Compare, cmp': Compare, r: Range)
    requires SameOrderOn(cmp, cmp', Compared(db, r))
    ensures PairsInRange(db, cmp, r) == PairsInRange(db, cmp', r)
    ensures KeysInRange(db, cmp, r) == KeysInRange(db, cmp', r)
    ensures Sorted(db, cmp) <==> Sorted(db, cmp')
  {
    var keys := Compared(db, r);
    forall i | 0 <= i < |db| ensures InRange(cmp, r, db[i].key) <==> InRange(cmp', r, db[i].key) {
      if r.low.Some? { SameSigns(cmp, cmp', keys, db[i].key, r.low.value); }
      if r.high.Some? { SameSigns(cmp, cmp', keys, db[i].key, r.high.value); }
    }
    forall i, j | 0 <= i < j < |db| ensures cmp(db[i].key, db[j].key) < 0 <==> cmp'(db[i].key, db[j].key) < 0 {
      SameSigns(cmp, cmp', keys, db[i].key, db[j].key);
    }
  }

  /** So for keys and bounds below 2^31 bytes it does not matter which of the two comparisons of the
      tests a counter is given: a database sorted by one is sorted by the other, all the counters
      apply, and they count the same. */
  lemma EitherComparisonCounts(db: Multimap, r: Range)
    requires forall k <- Compared(db, r) :: |k| < INT_LIMIT
    ensures Countable(db, CmpMemn, r) <==> Countable(db, CmpKey, r)
    ensures Countable(db, CmpKey, r) <==> Sorted(db, CmpKey)
    ensures PairsInRange(db, CmpMemn, r) == PairsInRange(db, CmpKey, r)
    ensures KeysInRange(db, CmpMemn, r) == KeysInRange(db, CmpKey, r)
  {
    var keys := Compared(db, r);
    CmpMemnOrdersShortKeys(keys);
    CmpKeyIsTotalOrder(keys);
    SameOrderSameCount(db, CmpKey, CmpMemn, r);
  }
}
