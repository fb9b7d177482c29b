/** The reference model of the LEAF2 fuzz test: a bitmap of (key, value) pairs with cached counts,
    its ordered walks and its rank/select queries, and the value encoding (mtest_leaf2.c). */
module RankModel {
  import opened CTypes
  import opened Encoding
  import opened ByteOrder

  const KEY_COUNT := 8
  const VALUE_LIMIT := 65536

  // ---------------------------------------------------------------- counting bits

  /** How many of the bits `[lo, hi)` are set. */
  ghost function Ones(bits: seq<bool>, lo: int, hi: int): nat
    requires 0 <= lo && hi <= |bits|
    decreases hi - lo
  {
    if lo >= hi then 0 else Ones(bits, lo, hi - 1) + if bits[hi - 1] then 1 else 0
  }

  lemma {:induction false} OnesSplit(bits: seq<bool>, lo: int, mid: int, hi: int)
    requires 0 <= lo <= mid <= hi <= |bits|
    ensures Ones(bits, lo, hi) == Ones(bits, lo, mid) + Ones(bits, mid, hi)
    decreases hi
  {
    if mid < hi { OnesSplit(bits, lo, mid, hi - 1); }
  }

  lemma {:induction false} OnesFrame(bits: seq<bool>, bits': seq<bool>, lo: int, hi: int)
    requires 0 <= lo && hi <= |bits| && hi <= |bits'|
    requires forall x {:trigger bits'[x]} :: lo <= x < hi ==> bits'[x] == bits[x]
    ensures Ones(bits', lo, hi) == Ones(bits, lo, hi)
    decreases hi
  {
    if lo < hi { OnesFrame(bits, bits', lo, hi - 1); }
  }

  /** Flipping one bit changes the count of a stretch by one, if the bit lies in it. */
  lemma {:induction false} OnesOfFlip(bits: seq<bool>, bits': seq<bool>, x: int, lo: int, hi: int)
    requires 0 <= lo <= hi <= |bits| == |bits'| && 0 <= x < |bits|
    requires bits' == bits[x := !bits[x]]
    ensures Ones(bits', lo, hi)
         == Ones(bits, lo, hi) + (if lo <= x < hi then if bits[x] then -1 else 1 else 0)
  {
    if lo <= x < hi {
      OnesSplit(bits, lo, x, hi);
      OnesSplit(bits', lo, x, hi);
      OnesSplit(bits, x, x + 1, hi);
      OnesSplit(bits', x, x + 1, hi);
      OnesFrame(bits, bits', lo, x);
      OnesFrame(bits, bits', x + 1, hi);
    } else {
      OnesFrame(bits, bits', lo, hi);
    }
  }

  lemma {:induction false} NoOnes(bits: seq<bool>, lo: int, hi: int)
    requires 0 <= lo && hi <= |bits|
    ensures Ones(bits, lo, hi) == 0 <==> forall x :: lo <= x < hi ==> !bits[x]
    decreases hi
  {
    if lo < hi { NoOnes(bits, lo, hi - 1); }
  }

  // ---------------------------------------------------------------- slots and ranks

  function Slot(key: int, value: int): int {
    key * VALUE_LIMIT + value
  }

  /** The rank of a pair: how many stored pairs come before it, key by key and value by value. As the
      rows of the bitmap follow each other, that is a count over a prefix. */
  ghost function Rank(bits: seq<bool>, key: nat, value: nat): nat
    requires Slot(key, value) <= |bits|
  {
    Ones(bits, 0, Slot(key, value))
  }

  ghost predicate InModel(key: int, value: int) {
    0 <= key < 8 && 0 <= value < 65536
  }

  ghost predicate Before(k: int, v: int, k': int, v': int) {
    k < k' || (k == k' && v < v')
  }

  lemma SlotsAreOrdered(k: int, v: int, k': int, v': int)
    requires InModel(k, v) && InModel(k', v')
    ensures Before(k, v, k', v') <==> Slot(k, v) < Slot(k', v')
    ensures 0 <= Slot(k, v) < KEY_COUNT * VALUE_LIMIT
    ensures Slot(k, v) == Slot(k', v') <==> k == k' && v == v'
  {
  }

  /** Ranks rise strictly from stored pair to stored pair. */
  lemma RankIsMonotone(bits: seq<bool>, k: nat, v: nat, k': nat, v': nat)
    requires |bits| == KEY_COUNT * VALUE_LIMIT && InModel(k, v) && InModel(k', v')
    requires bits[Slot(k, v)] && Before(k, v, k', v')
    ensures Rank(bits, k, v) < Rank(bits, k', v')
  {
    var x, y := Slot(k, v), Slot(k', v');
    SlotsAreOrdered(k, v, k', v');
    OnesSplit(bits, 0, x, y);
    OnesSplit(bits, x, x + 1, y);
  }

  /** So two stored pairs with the same rank are the same pair. */
  lemma RankIsInjective(bits: seq<bool>, k: nat, v: nat, k': nat, v': nat)
    requires |bits| == KEY_COUNT * VALUE_LIMIT && InModel(k, v) && InModel(k', v')
    requires bits[Slot(k, v)] && bits[Slot(k', v')]
    requires Rank(bits, k, v) == Rank(bits, k', v')
    ensures k == k' && v == v'
  {
    if Before(k, v, k', v') { RankIsMonotone(bits, k, v, k', v'); }
    if Before(k', v', k, v) { RankIsMonotone(bits, k', v', k, v); }
  }

  /** The rank of a pair is the number of stored pairs in the slots before its own. */
  lemma RankIsCount(bits: seq<bool>, key: nat, value: nat)
    requires 65536 * key + value <= |bits|
    ensures Rank(bits, key, value) == |set x | 0 <= x < 65536 * key + value && bits[x]|
  {
    OnesAreCounted(bits, Slot(key, value));
    assert (set x | 0 <= x < 65536 * key + value && bits[x]) == SetBits(bits, Slot(key, value));
  }

  ghost function SetBits(bits: seq<bool>, n: nat): set<int>
    requires n <= |bits|
  {
    set x | 0 <= x < n && bits[x]
  }

  lemma {:induction false} OnesAreCounted(bits: seq<bool>, n: nat)
    requires n <= |bits|
    ensures Ones(bits, 0, n) == |SetBits(bits, n)|
  {
    if n == 0 {
      assert SetBits(bits, 0) == {};
    } else {
      OnesAreCounted(bits, n - 1);
      assert SetBits(bits, n) == SetBits(bits, n - 1) + if bits[n - 1] then {n - 1} else {};
    }
  }

  // ---------------------------------------------------------------- the values of a row

  /** The stored values of a row in `[lo, hi)`, in rising order. */
  ghost function Row(bits: seq<bool>, key: nat, lo: nat, hi: nat): seq<nat>
    requires key < KEY_COUNT && hi <= VALUE_LIMIT && |bits| == KEY_COUNT * VALUE_LIMIT
    decreases hi
  {
    if lo >= hi then [] else Row(bits, key, lo, hi - 1) + if bits[Slot(key, hi - 1)] then [hi - 1] else []
  }

  lemma {:induction false} RowSplit(bits: seq<bool>, key: nat, lo: nat, mid: nat, hi: nat)
    requires key < KEY_COUNT && lo <= mid <= hi <= VALUE_LIMIT && |bits| == KEY_COUNT * VALUE_LIMIT
    ensures Row(bits, key, lo, hi) == Row(bits, key, lo, mid) + Row(bits, key, mid, hi)
    decreases hi
  {
    if mid < hi { RowSplit(bits, key, lo, mid, hi - 1); }
  }

  lemma {:induction false} RowGap(bits: seq<bool>, key: nat, lo: nat, hi: nat)
    requires key < KEY_COUNT && lo <= hi <= VALUE_LIMIT && |bits| == KEY_COUNT * VALUE_LIMIT
    requires forall v :: lo <= v < hi ==> !bits[Slot(key, v)]
    ensures Row(bits, key, lo, hi) == []
    decreases hi
  {
    if lo < hi { RowGap(bits, key, lo, hi - 1); }
  }

  /** `r` is the smallest stored value of the row from `from` on, if there is one. */
  ghost predicate IsNext(bits: seq<bool>, key: nat, from: nat, r: Option<nat>)
    requires key < KEY_COUNT && |bits| == KEY_COUNT * VALUE_LIMIT
  {
    && (r.Some? ==> from <= r.value < VALUE_LIMIT && bits[Slot(key, r.value)])
    && forall v :: from <= v < (if r.Some? && r.value < VALUE_LIMIT then r.value else VALUE_LIMIT) ==>
         !bits[Slot(key, v)]
  }

  /** `r` is the largest stored value of the row before `to`, if there is one. */
  ghost predicate IsPrev(bits: seq<bool>, key: nat, to: nat, r: Option<nat>)
    requires key < KEY_COUNT && to <= VALUE_LIMIT && |bits| == KEY_COUNT * VALUE_LIMIT
  {
    && (r.Some? ==> r.value < to && bits[Slot(key, r.value)])
    && forall v :: (if r.Some? then r.value + 1 else 0) <= v < to ==> !bits[Slot(key, v)]
  }

  /** The next stored value extends the values before it by one; without one the row is complete. */
  lemma RowNext(bits: seq<bool>, key: nat, from: nat, r: Option<nat>)
    requires key < KEY_COUNT && from <= VALUE_LIMIT && |bits| == KEY_COUNT * VALUE_LIMIT
    requires IsNext(bits, key, from, r)
    ensures if r.Some? then Row(bits, key, 0, r.value + 1) == Row(bits, key, 0, from) + [r.value]
            else Row(bits, key, 0, VALUE_LIMIT) == Row(bits, key, 0, from)
  {
    var to := if r.Some? then r.value else VALUE_LIMIT;
    RowSplit(bits, key, 0, from, to);
    RowGap(bits, key, from, to);
  }

  lemma RowOfOne(bits: seq<bool>, key: nat, v: nat)
    requires key < KEY_COUNT && v < VALUE_LIMIT && |bits| == KEY_COUNT * VALUE_LIMIT && bits[Slot(key, v)]
    ensures Row(bits, key, v, v + 1) == [v]
  {
    assert Row(bits, key, v, v) == [];
  }

  /** A stretch with a single stored value, at its start, in front of another one. */
  lemma RowBefore(bits: seq<bool>, key: nat, v: nat, to: nat, hi: nat)
    requires key < KEY_COUNT && v < to <= hi <= VALUE_LIMIT && |bits| == KEY_COUNT * VALUE_LIMIT
    requires bits[Slot(key, v)] && forall u :: v < u < to ==> !bits[Slot(key, u)]
    ensures Row(bits, key, v, hi) == [v] + Row(bits, key, to, hi)
  {
    RowSplit(bits, key, v, to, hi);
    RowSplit(bits, key, v, v + 1, to);
    RowGap(bits, key, v + 1, to);
    RowOfOne(bits, key, v);
    assert [v] + [] == [v];
  }

  /** The previous stored value stands before the values behind it; without one the row is complete. */
  lemma RowPrev(bits: seq<bool>, key: nat, to: nat, r: Option<nat>)
    requires key < KEY_COUNT && to <= VALUE_LIMIT && |bits| == KEY_COUNT * VALUE_LIMIT
    requires IsPrev(bits, key, to, r)
    ensures if r.Some? then Row(bits, key, r.value, VALUE_LIMIT) == [r.value] + Row(bits, key, to, VALUE_LIMIT)
            else Row(bits, key, 0, VALUE_LIMIT) == Row(bits, key, to, VALUE_LIMIT)
  {
    if r.Some? {
      RowBefore(bits, key, r.value, to, VALUE_LIMIT);
    } else {
      RowSplit(bits, key, 0, to, VALUE_LIMIT);
      RowGap(bits, key, 0, to);
      assert [] + Row(bits, key, to, VALUE_LIMIT) == Row(bits, key, to, VALUE_LIMIT);
    }
  }

  /** Position in the row is rank: the value at index `i` has `i` stored pairs of its row before it. */
  lemma {:induction false} RowIsRanked(bits: seq<bool>, key: nat, hi: nat, i: nat)
    requires key < KEY_COUNT && hi <= VALUE_LIMIT && |bits| == KEY_COUNT * VALUE_LIMIT
    requires i < |Row(bits, key, 0, hi)|
    ensures var v := Row(bits, key, 0, hi)[i];
      v < hi && bits[Slot(key, v)] && Rank(bits, key, v) == Rank(bits, key, 0) + i
    decreases hi
  {
    RowSize(bits, key, hi - 1);
    if i < |Row(bits, key, 0, hi - 1)| {
      RowIsRanked(bits, key, hi - 1, i);
    } else {
      OnesSplit(bits, 0, Slot(key, 0), Slot(key, hi - 1));
    }
  }

  lemma {:induction false} RowSize(bits: seq<bool>, key: nat, hi: nat)
    requires key < KEY_COUNT && hi <= VALUE_LIMIT && |bits| == KEY_COUNT * VALUE_LIMIT
    ensures |Row(bits, key, 0, hi)| == Ones(bits, Slot(key, 0), Slot(key, hi))
    decreases hi
  {
    if hi > 0 { RowSize(bits, key, hi - 1); }
  }

  ghost function Backwards(s: seq<nat>): seq<nat> {
    seq(|s|, i requires 0 <= i < |s| => s[|s| - 1 - i])
  }

  lemma BackwardsOneMore(v: nat, s: seq<nat>)
    ensures Backwards([v] + s) == Backwards(s) + [v]
  {
  }

  // ---------------------------------------------------------------- the model

  ghost function SumCounts(counts: seq<nat>, n: nat): nat
    requires n <= |counts|
  {
    if n == 0 then 0 else SumCounts(counts, n - 1) + counts[n - 1]
  }

  lemma {:induction false} SumCountsFrame(counts: seq<nat>, counts': seq<nat>, n: nat)
    requires n <= |counts| && n <= |counts'|
    requires forall k :: 0 <= k < n ==> counts'[k] == counts[k]
    ensures SumCounts(counts', n) == SumCounts(counts, n)
  {
    if n > 0 { SumCountsFrame(counts, counts', n - 1); }
  }

  lemma {:induction false} SumCountsUpdate(counts: seq<nat>, key: nat, c: nat, n: nat)
    requires key < n <= |counts|
    ensures SumCounts(counts[key := c], n) == SumCounts(counts, n) - counts[key] + c
  {
    if key == n - 1 {
      SumCountsFrame(counts, counts[key := c], n - 1);
    } else {
      SumCountsUpdate(counts, key, c, n - 1);
    }
  }

  /** The cached counts are those of the bitmap's rows, the cached total is their sum. */
  ghost predicate Consistent(bits: seq<bool>, counts: seq<nat>, total: nat) {
    && |bits| == KEY_COUNT * VALUE_LIMIT && |counts| == KEY_COUNT
    && (forall k :: 0 <= k < KEY_COUNT ==> counts[k] == Ones(bits, Slot(k, 0), Slot(k + 1, 0)))
    && total == SumCounts(counts, KEY_COUNT)
  }

  /** Consequently the counts before a row add up to the rank of its first slot. */
  lemma {:induction false} CountsAddUp(bits: seq<bool>, counts: seq<nat>, total: nat, n: nat)
    requires Consistent(bits, counts, total) && n <= KEY_COUNT
    ensures SumCounts(counts, n) == Rank(bits, n, 0)
  {
    if n > 0 {
      CountsAddUp(bits, counts, total, n - 1);
      OnesSplit(bits, 0, Slot(n - 1, 0), Slot(n, 0));
    }
  }

  lemma FlipKeepsConsistent(bits: seq<bool>, counts: seq<nat>, total: nat, key: nat, value: nat, c: nat)
    requires Consistent(bits, counts, total) && InModel(key, value)
    requires c == counts[key] as int + if bits[Slot(key, value)] then -1 else 1
    ensures total as int + c as int - counts[key] as int >= 0
    ensures Consistent(bits[Slot(key, value) := !bits[Slot(key, value)]], counts[key := c],
                       total as int + c as int - counts[key] as int)
  {
    var x := Slot(key, value);
    var bits' := bits[x := !bits[x]];
    forall k | 0 <= k < KEY_COUNT ensures counts[key := c][k] == Ones(bits', Slot(k, 0), Slot(k + 1, 0)) {
      OnesOfFlip(bits, bits', x, Slot(k, 0), Slot(k + 1, 0));
    }
    SumCountsUpdate(counts, key, c, KEY_COUNT);
  }

  lemma ClearKeepsConsistent(bits: seq<bool>, counts: seq<nat>, total: nat, key: nat, bits': seq<bool>)
    requires Consistent(bits, counts, total) && key < KEY_COUNT && |bits'| == |bits|
    requires forall x {:trigger bits'[x]} :: 0 <= x < |bits| ==>
               bits'[x] == (bits[x] && !(Slot(key, 0) <= x < Slot(key + 1, 0)))
    ensures total >= counts[key]
    ensures Consistent(bits', counts[key := 0], total - counts[key])
  {
    forall k | 0 <= k < KEY_COUNT ensures counts[key := 0][k] == Ones(bits', Slot(k, 0), Slot(k + 1, 0)) {
      if k == key {
        NoOnes(bits', Slot(k, 0), Slot(k + 1, 0));
      } else {
        OnesFrame(bits, bits', Slot(k, 0), Slot(k + 1, 0));
      }
    }
    SumCountsUpdate(counts, key, 0, KEY_COUNT);
  }

  class Model {
    /** One bit for each value of each key, row after row. */
    const present: array<bool>
    const counts: array<nat>
    var total: nat

    ghost predicate Valid()
      reads this, present, counts
    {
      Consistent(present[..], counts[..], total)
    }

    function Has(key: int, value: int): bool
      requires InModel(key, value) && present.Length == KEY_COUNT * VALUE_LIMIT
      reads present
    {
      SlotsAreOrdered(key, value, key, value);
      present[Slot(key, value)]
    }

    /** `lf_model_init` */
    constructor ()
      ensures Valid() && fresh(present) && fresh(counts)
      ensures total == 0 && forall x :: 0 <= x < present.Length ==> !present[x]
    {
      present := new bool[KEY_COUNT * VALUE_LIMIT](_ => false);
      counts := new nat[KEY_COUNT](_ => 0);
      total := 0;
      new;
      EmptyIsConsistent(present[..], counts[..]);
    }

    /** `lf_model_add`: false where the program stops, for a pair outside the model or present. */
    method Add(key: nat, value: nat) returns (ok: bool)
      requires Valid()
      modifies this, present, counts
      ensures Valid()
      ensures ok <==> InModel(key, value) && !old(present[..])[Slot(key, value)]
      ensures !ok ==> present[..] == old(present[..]) && counts[..] == old(counts[..]) && total == old(total)
      ensures ok ==> present[..] == old(present[..])[Slot(key, value) := true]
    {
      if key >= KEY_COUNT || value >= VALUE_LIMIT || Has(key, value) { return false; }
      FlipKeepsConsistent(present[..], counts[..], total, key, value, counts[key] + 1);
      present[Slot(key, value)] := true;
      counts[key] := counts[key] + 1;
      total := total + 1;
      return true;
    }

    /** `lf_model_remove` */
    method Remove(key: nat, value: nat) returns (ok: bool)
      requires Valid()
      modifies this, present, counts
      ensures Valid()
      ensures ok <==> InModel(key, value) && old(present[..])[Slot(key, value)]
      ensures !ok ==> present[..] == old(present[..]) && counts[..] == old(counts[..]) && total == old(total)
      ensures ok ==> present[..] == old(present[..])[Slot(key, value) := false]
    {
      if key >= KEY_COUNT || value >= VALUE_LIMIT || !Has(key, value) { return false; }
      CountIsPositive(present[..], counts[..], total, key, value);
      FlipKeepsConsistent(present[..], counts[..], total, key, value, counts[key] - 1);
      present[Slot(key, value)] := false;
      counts[key] := counts[key] - 1;
      total := total - 1;
      return true;
    }

    /** `lf_model_clear_key` */
    method ClearKey(key: nat)
      requires Valid() && key < KEY_COUNT
      modifies this, present, counts
      ensures Valid()
      ensures forall x {:trigger present[x]} :: 0 <= x < present.Length ==>
                present[x] == (old(present[x]) && !(Slot(key, 0) <= x < Slot(key + 1, 0)))
    {
      ghost var bits, cs := present[..], counts[..];
      forall v | 0 <= v < VALUE_LIMIT {
        present[Slot(key, v)] := false;
      }
      forall x {:trigger present[x]} | 0 <= x < present.Length
        ensures present[x] == (bits[x] && !(Slot(key, 0) <= x < Slot(key + 1, 0)))
      {
        if Slot(key, 0) <= x < Slot(key + 1, 0) { assert x == Slot(key, x - Slot(key, 0)); }
      }
      ClearKeepsConsistent(bits, cs, total, key, present[..]);
      total := total - counts[key];
      counts[key] := 0;
      assert counts[..] == cs[key := 0];
    }

    /** `lf_model_copy` */
    method CopyFrom(src: Model)
      requires Valid() && src.Valid() && src != this
      requires present != src.present && counts != src.counts
      modifies this, present, counts
      ensures Valid() && src.Valid()
      ensures present[..] == src.present[..] && counts[..] == src.counts[..] && total == src.total
      ensures src.present[..] == old(src.present[..])
    {
      ghost var bits, cs := src.present[..], src.counts[..];
      forall x | 0 <= x < present.Length { present[x] := src.present[x]; }
      assert present[..] == bits && src.counts[..] == cs;
      forall k | 0 <= k < counts.Length { counts[k] := src.counts[k]; }
      total := src.total;
      assert counts[..] == cs && present[..] == bits;
    }

    // -------------------------------------------------------------- ordered walks

    /** `lf_model_lower_bound`: the smallest stored value from `from` on; `lf_model_first` starts at 0
        and `lf_model_next` behind the current value. */
    method LowerBound(key: nat, from: nat) returns (r: Option<nat>)
      requires Valid() && key < KEY_COUNT
      ensures r.Some? ==> from <= r.value < VALUE_LIMIT && Has(key, r.value)
      ensures forall v :: from <= v < (if r.Some? then r.value else VALUE_LIMIT) ==> !Has(key, v)
    {
      var value := from;
      while value < VALUE_LIMIT
        invariant from <= value
        invariant forall v :: from <= v < value && v < VALUE_LIMIT ==> !Has(key, v)
      {
        if Has(key, value) { return Some(value); }
        value := value + 1;
      }
      return None;
    }

    method First(key: nat) returns (r: Option<nat>)
      requires Valid() && key < KEY_COUNT
      ensures r.Some? ==> r.value < VALUE_LIMIT && Has(key, r.value)
                          && Rank(present[..], key, r.value) == Rank(present[..], key, 0)
                          && forall v :: 0 <= v < r.value ==> !Has(key, v)
      ensures r.None? <==> forall v :: 0 <= v < VALUE_LIMIT ==> !Has(key, v)
    {
      r := LowerBound(key, 0);
      if r.Some? { NoneBetween(key, 0, r.value); }
    }

    method Next(key: nat, value: nat) returns (r: Option<nat>)
      requires Valid() && InModel(key, value)
      ensures r.Some? ==> value < r.value < VALUE_LIMIT && Has(key, r.value)
                          && forall v :: value < v < r.value ==> !Has(key, v)
      ensures r.None? <==> forall v :: value < v < VALUE_LIMIT ==> !Has(key, v)
      ensures r.Some? && Has(key, value) ==> Rank(present[..], key, r.value) == Rank(present[..], key, value) + 1
    {
      r := LowerBound(key, value + 1);
      if r.Some? {
        NoneBetween(key, value + 1, r.value);
        OnesSplit(present[..], 0, Slot(key, value), Slot(key, value + 1));
      }
    }

    method Last(key: nat) returns (r: Option<nat>)
      requires Valid() && key < KEY_COUNT
      ensures r.Some? ==> r.value < VALUE_LIMIT && Has(key, r.value)
                          && forall v :: r.value < v < VALUE_LIMIT ==> !Has(key, v)
      ensures r.Some? ==> Rank(present[..], key, r.value) + 1 == Rank(present[..], key, VALUE_LIMIT)
      ensures r.None? <==> forall v :: 0 <= v < VALUE_LIMIT ==> !Has(key, v)
    {
      r := Prev(key, VALUE_LIMIT);
    }

    /** `lf_model_prev`; `lf_model_last` is the same scan from the end of the row. */
    method Prev(key: nat, value: nat) returns (r: Option<nat>)
      requires Valid() && key < KEY_COUNT && value <= VALUE_LIMIT
      ensures r.Some? ==> r.value < value && Has(key, r.value)
                          && forall v :: r.value < v < value ==> !Has(key, v)
      ensures r.None? <==> forall v :: 0 <= v < value ==> !Has(key, v)
      ensures r.Some? ==> Rank(present[..], key, r.value) + 1 == Rank(present[..], key, value)
    {
      var x := value;
      while x > 0
        invariant 0 <= x <= value
        invariant forall v :: x <= v < value ==> !Has(key, v)
      {
        x := x - 1;
        if Has(key, x) {
          NoneBetween(key, x + 1, value);
          OnesSplit(present[..], 0, Slot(key, x), Slot(key, x + 1));
          return Some(x);
        }
      }
      return None;
    }

    /** From the first value on through the next ones: the values of the row in rising order. */
    method ForwardWalk(key: nat) returns (values: seq<nat>)
      requires Valid() && key < KEY_COUNT
      ensures values == Row(present[..], key, 0, VALUE_LIMIT)
    {
      ghost var bits, seen := present[..], 0;
      values := [];
      var expected := First(key);
      NextInBits(key, 0, expected);
      while expected.Some?
        invariant 0 <= seen <= VALUE_LIMIT && values == Row(bits, key, 0, seen)
        invariant IsNext(bits, key, seen, expected)
        decreases VALUE_LIMIT - seen
      {
        RowNext(bits, key, seen, expected);
        values := values + [expected.value];
        seen := expected.value + 1;
        expected := Next(key, expected.value);
        NextInBits(key, seen, expected);
      }
      RowNext(bits, key, seen, expected);
    }

    /** From the last value on through the previous ones: the same values in falling order. */
    method ReverseWalk(key: nat) returns (values: seq<nat>)
      requires Valid() && key < KEY_COUNT
      ensures values == Backwards(Row(present[..], key, 0, VALUE_LIMIT))
    {
      ghost var bits, seen := present[..], VALUE_LIMIT;
      values := [];
      var expected := Last(key);
      PrevInBits(key, seen, expected);
      while expected.Some?
        invariant 0 <= seen <= VALUE_LIMIT && values == Backwards(Row(bits, key, seen, VALUE_LIMIT))
        invariant IsPrev(bits, key, seen, expected)
        decreases seen
      {
        RowPrev(bits, key, seen, expected);
        BackwardsOneMore(expected.value, Row(bits, key, seen, VALUE_LIMIT));
        values := values + [expected.value];
        seen := expected.value;
        expected := Prev(key, expected.value);
        PrevInBits(key, seen, expected);
      }
      RowPrev(bits, key, seen, expected);
    }

    lemma NextInBits(key: nat, from: nat, r: Option<nat>)
      requires Valid() && key < KEY_COUNT && from <= VALUE_LIMIT
      requires r.Some? ==> from <= r.value < VALUE_LIMIT && Has(key, r.value)
      requires forall v :: from <= v < (if r.Some? then r.value else VALUE_LIMIT) ==> !Has(key, v)
      ensures IsNext(present[..], key, from, r)
    {
      forall v | from <= v < (if r.Some? then r.value else VALUE_LIMIT) ensures !present[..][Slot(key, v)] {
        assert !Has(key, v);
      }
    }

    lemma PrevInBits(key: nat, to: nat, r: Option<nat>)
      requires Valid() && key < KEY_COUNT && to <= VALUE_LIMIT
      requires r.Some? ==> r.value < to && Has(key, r.value)
      requires forall v :: (if r.Some? then r.value + 1 else 0) <= v < to ==> !Has(key, v)
      ensures IsPrev(present[..], key, to, r)
    {
      forall v | (if r.Some? then r.value + 1 else 0) <= v < to ensures !present[..][Slot(key, v)] {
        assert !Has(key, v);
      }
    }

    lemma NoneBetween(key: nat, lo: nat, hi: nat)
      requires Valid() && key < KEY_COUNT && lo <= hi <= VALUE_LIMIT
      requires forall v :: lo <= v < hi ==> !Has(key, v)
      ensures Rank(present[..], key, hi) == Rank(present[..], key, lo)
    {
      var x, y := Slot(key, lo), Slot(key, hi);
      OnesSplit(present[..], 0, x, y);
      forall z | x <= z < y ensures !present[z] {
        assert z == Slot(key, z - Slot(key, 0)) && !Has(key, z - Slot(key, 0));
      }
      NoOnes(present[..], x, y);
    }

    // -------------------------------------------------------------- rank and select

    /** `lf_model_nth`: the value with `rank` stored values before it in its row. */
    method Nth(key: nat, rank: nat) returns (r: Option<nat>)
      requires Valid() && key < KEY_COUNT
      ensures r.Some? <==> rank < counts[key]
      ensures r.Some? ==> r.value < VALUE_LIMIT && Has(key, r.value)
      ensures r.Some? ==> Rank(present[..], key, r.value) == Rank(present[..], key, 0) + rank
    {
      if rank >= counts[key] { return None; }
      var value, left: int := 0, rank;
      assert Slot(key, VALUE_LIMIT) == Slot(key + 1, 0);
      while value < VALUE_LIMIT
        invariant 0 <= value <= VALUE_LIMIT && 0 <= left <= rank
        invariant Ones(present[..], Slot(key, 0), Slot(key, value)) == rank - left
      {
        OnesSplit(present[..], 0, Slot(key, 0), Slot(key, value));
        if Has(key, value) {
          if left == 0 { return Some(value); }
          left := left - 1;
        }
        value := value + 1;
      }
      assert false;
    }

    /** `lf_model_pair_at`: select. Below the total there always is such a pair: the failure at the
        end of the traversal cannot happen. */
    method PairAt(rank: nat) returns (r: Option<(nat, nat)>)
      requires Valid()
      ensures r.Some? <==> rank < total
      ensures r.Some? ==> InModel(r.value.0, r.value.1) && Has(r.value.0, r.value.1)
      ensures r.Some? ==> Rank(present[..], r.value.0, r.value.1) == rank
    {
      if rank >= total { return None; }
      var key, left: int := 0, rank;
      while key < KEY_COUNT
        invariant 0 <= key <= KEY_COUNT && left >= 0
        invariant SumCounts(counts[..], key) + left == rank
      {
        CountsAddUp(present[..], counts[..], total, key);
        if left < counts[key] {
          var v := Nth(key, left);
          return Some((key, v.value));
        }
        left := left - counts[key];
        key := key + 1;
      }
      assert false;
    }
  }

  lemma EmptyIsConsistent(bits: seq<bool>, counts: seq<nat>)
    requires |bits| == KEY_COUNT * VALUE_LIMIT && |counts| == KEY_COUNT
    requires (forall x :: 0 <= x < |bits| ==> !bits[x]) && forall k :: 0 <= k < KEY_COUNT ==> counts[k] == 0
    ensures Consistent(bits, counts, 0)
  {
    forall k | 0 <= k < KEY_COUNT ensures counts[k] == Ones(bits, Slot(k, 0), Slot(k + 1, 0)) {
      NoOnes(bits, Slot(k, 0), Slot(k + 1, 0));
    }
    SumCountsOfZeros(counts, KEY_COUNT);
  }

  lemma {:induction false} SumCountsOfZeros(counts: seq<nat>, n: nat)
    requires n <= |counts| && forall k :: 0 <= k < n ==> counts[k] == 0
    ensures SumCounts(counts, n) == 0
  {
    if n > 0 { SumCountsOfZeros(counts, n - 1); }
  }

  lemma CountIsPositive(bits: seq<bool>, counts: seq<nat>, total: nat, key: nat, value: nat)
    requires Consistent(bits, counts, total) && InModel(key, value) && bits[Slot(key, value)]
    ensures counts[key] > 0
  {
    NoOnes(bits, Slot(key, 0), Slot(key + 1, 0));
    assert Slot(key, 0) <= Slot(key, value) < Slot(key + 1, 0);
  }

  /** Ranks below the total and stored pairs correspond one to one: the rank of a stored pair is
      below the total, and (with `PairAt` and `RankIsInjective`) every such rank has its pair. */
  lemma RanksStayBelowTotal(bits: seq<bool>, counts: seq<nat>, total: nat, key: nat, value: nat)
    requires Consistent(bits, counts, total) && InModel(key, value) && bits[Slot(key, value)]
    ensures Rank(bits, key, value) < total
  {
    CountsAddUp(bits, counts, total, KEY_COUNT);
    var x, end := Slot(key, value), Slot(KEY_COUNT, 0);
    SlotsAreOrdered(key, value, key, value);
    OnesSplit(bits, 0, x, end);
    OnesSplit(bits, x, x + 1, end);
  }

  // ---------------------------------------------------------------- the value encoding

  /** `value` in `width` bytes, most significant first. */
  ghost function BigEndian(width: nat, value: nat): Bytes {
    if width == 0 then [] else BigEndian(width - 1, value / 256) + [(value % 256) as char]
  }

  function Pow256(width: nat): (p: nat)
    ensures p > 0
  {
    if width == 0 then 1 else 256 * Pow256(width - 1)
  }

  /** The number that bytes make up, the first one counting most. */
  ghost function NumberOf(s: Bytes): nat {
    if s == [] then 0 else 256 * NumberOf(s[..|s| - 1]) + s[|s| - 1] as int
  }

  lemma ModStep(n: nat, p: nat)
    requires p > 0
    ensures n % (256 * p) == 256 * (n / 256 % p) + n % 256
  {
    var m, q := n / 256 % p, n / 256 / p;
    assert n / 256 == p * q + m;
    var r := 256 * m + n % 256;
    assert n == 256 * p * q + r by { assert 256 * (p * q) == 256 * p * q; }
    assert 0 <= r < 256 * p;
    ModOf(n, 256 * p, q, r);
  }

  lemma ModOf(n: nat, p: nat, q: nat, r: nat)
    requires p > 0 && n == p * q + r && r < p
    ensures n % p == r
  {
    var d := n / p - q;
    assert n == p * (n / p) + n % p;
    assert p * d == r - n % p;
    if d >= 1 { MulMonotone(1, d, p); }
    if d <= -1 { MulMonotone(1, -d, p); }
  }

  /** The bytes written are the value, or its remainder when it does not fit the width. */
  lemma {:induction false} EncodingMeans(width: nat, value: nat)
    ensures |BigEndian(width, value)| == width
    ensures NumberOf(BigEndian(width, value)) == value % Pow256(width)
  {
    if width > 0 {
      EncodingMeans(width - 1, value / 256);
      var head, last := BigEndian(width - 1, value / 256), [(value % 256) as char];
      assert (head + last)[..|head + last| - 1] == head;
      ModStep(value, Pow256(width - 1));
    }
  }

  /** What is left to write, in front of what has been written. */
  ghost predicate Encoded(todo: nat, left: nat, done: Bytes, width: nat, value: nat) {
    BigEndian(todo, left) + done == BigEndian(width, value)
  }

  /** One byte moves from the part left to write to the part written. */
  lemma EncodeByte(todo: nat, left: nat, done: Bytes, width: nat, value: nat)
    requires todo > 0 && Encoded(todo, left, done, width, value)
    ensures Encoded(todo - 1, left / 256, [(left % 256) as char] + done, width, value)
  {
    var head, b := BigEndian(todo - 1, left / 256), (left % 256) as char;
    assert head + [b] + done == head + ([b] + done);
  }

  lemma EncodeEnds(todo: nat, left: nat, zeros: Bytes, done: Bytes, width: nat, value: nat)
    requires Encoded(todo, left, done, width, value) && (todo == 0 || left == 0)
    requires |zeros| == todo && forall k :: 0 <= k < todo ==> zeros[k] == NUL
    ensures zeros + done == BigEndian(width, value)
  {
    if todo > 0 { ZeroBytes(todo); }
    assert zeros == BigEndian(todo, left);
  }

  /** The byte loop of `lf_encode_value`, which stops early when only zeros are left to write. */
  method EncodeValue(width: nat, value: nat) returns (buf: array<Byte>)
    ensures fresh(buf) && buf[..] == BigEndian(width, value)
  {
    buf := new Byte[width](_ => NUL);
    var i, left := 0, value;
    assert buf[width..] == [] && BigEndian(width, value) + [] == BigEndian(width, value);
    while i < width && left > 0
      invariant 0 <= i <= width
      invariant forall k :: 0 <= k < width - i ==> buf[k] == NUL
      invariant Encoded(width - i, left, buf[width - i..], width, value)
    {
      ghost var done := buf[width - i..];
      EncodeByte(width - i, left, done, width, value);
      var b: Byte := (left % 256) as char;
      buf[width - i - 1] := b;
      assert buf[width - i - 1..] == [b] + done;
      left := left / 256;
      i := i + 1;
    }
    EncodeEnds(width - i, left, buf[..width - i], buf[width - i..], width, value);
    assert buf[..] == buf[..width - i] + buf[width - i..];
  }

  lemma {:induction false} ZeroBytes(width: nat)
    ensures |BigEndian(width, 0)| == width && forall k :: 0 <= k < width ==> BigEndian(width, 0)[k] == NUL
  {
    if width > 0 { ZeroBytes(width - 1); }
  }


  lemma {:induction false} LexOfLonger(a: Bytes, b: Bytes, x: Byte, y: Byte)
    requires |a| == |b|
    ensures Lex(a + [x], b + [y]) == if Lex(a, b) != 0 then Lex(a, b) else Sign(x as int - y as int)
  {
    if a != [] {
      assert (a + [x])[1..] == a[1..] + [x] && (b + [y])[1..] == b[1..] + [y];
      LexOfLonger(a[1..], b[1..], x, y);
    } else {
      assert a + [x] == [x] && b + [y] == [y];
      assert [x][1..] == [] && [y][1..] == [];
    }
  }

  /** Byte order on encoded values is numeric order, for all values that fit the width. */
  lemma {:induction false} EncodingPreservesOrder(width: nat, m: nat, n: nat)
    requires m < Pow256(width) && n < Pow256(width)
    ensures |BigEndian(width, m)| == |BigEndian(width, n)| == width
    ensures Lex(BigEndian(width, m), BigEndian(width, n)) == Sign(m - n)
  {
    if width > 0 {
      EncodingPreservesOrder(width - 1, m / 256, n / 256);
      LexOfLonger(BigEndian(width - 1, m / 256), BigEndian(width - 1, n / 256), (m % 256) as char, (n % 256) as char);
    }
  }

  /** All values of the model fit two bytes. */
  lemma ModelValuesKeepOrder(width: nat, m: nat, n: nat)
    requires width >= 2 && m < VALUE_LIMIT && n < VALUE_LIMIT
    ensures Lex(BigEndian(width, m), BigEndian(width, n)) == Sign(m - n)
  {
    Pow256Grows(width);
    EncodingPreservesOrder(width, m, n);
  }

  lemma {:induction false} Pow256Grows(width: nat)
    requires width >= 2
    ensures Pow256(width) >= VALUE_LIMIT
  {
    if width > 2 { Pow256Grows(width - 1); } else { assert Pow256(2) == 65536; }
  }
}
