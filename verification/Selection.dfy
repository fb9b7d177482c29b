/** Selecting duplicates by prefix: the two oracles of the projection test (mtest_dup_projection.c)
    and the selector spacing and merge walk of the projection benchmark (dup_projection_bench.c). */
module Selection {
  import opened CTypes
  import opened Encoding
  import opened ByteOrder

  // ---------------------------------------------------------------- prefixes in a sorted list

  ghost predicate SortedValues(model: seq<Bytes>) {
    forall i, j :: 0 <= i < j < |model| ==> Lex(model[i], model[j]) < 0
  }

  predicate HasPrefix(v: Bytes, p: Bytes) {
    |v| >= |p| && v[..|p|] == p
  }

  lemma HasPrefixMeans(v: Bytes, p: Bytes)
    ensures HasPrefix(v, p) <==> exists rest: Bytes :: v == p + rest
  {
    if HasPrefix(v, p) { assert v == p + v[|p|..]; }
  }

  /** A value with prefix `p` is not below `p`. */
  lemma {:induction false} PrefixIsBelow(v: Bytes, p: Bytes)
    requires HasPrefix(v, p)
    ensures Lex(p, v) <= 0
    decreases |p|
  {
    if p != [] {
      assert v[0] == v[..|p|][0] && v[1..][..|p| - 1] == v[..|p|][1..];
      PrefixIsBelow(v[1..], p[1..]);
    }
  }

  /** The values with prefix `p` are contiguous from `p` on: whatever lies between has it too. */
  lemma {:induction false} BetweenHasPrefix(v: Bytes, w: Bytes, p: Bytes)
    requires HasPrefix(w, p) && Lex(p, v) <= 0 && Lex(v, w) <= 0
    ensures HasPrefix(v, p)
    decreases |p|
  {
    if p != [] {
      assert w[0] == w[..|p|][0] && w[1..][..|p| - 1] == w[..|p|][1..];
      assert v[0] == p[0];
      BetweenHasPrefix(v[1..], w[1..], p[1..]);
      assert v[..|p|] == [v[0]] + v[1..][..|p| - 1];
      assert p == [p[0]] + p[1..];
    }
  }

  /** `j` is where `MDB_GET_BOTH_RANGE` with data `p` lands: the first value not below `p`. */
  ghost predicate IsLowerBound(model: seq<Bytes>, p: Bytes, j: nat) {
    && j <= |model|
    && (forall i :: 0 <= i < j ==> Lex(model[i], p) < 0)
    && (j < |model| ==> Lex(model[j], p) >= 0)
  }

  /** `j` is the first value with prefix `p`, or the length of the list when there is none. */
  ghost predicate IsFirstMatch(model: seq<Bytes>, p: Bytes, j: nat) {
    && j <= |model|
    && (forall i :: 0 <= i < j ==> !HasPrefix(model[i], p))
    && (j < |model| ==> HasPrefix(model[j], p))
  }

  /** The two oracles agree on every sorted list: some value has the prefix exactly when the lower
      bound has it, and then the lower bound is the first one. */
  lemma OraclesAgree(model: seq<Bytes>, p: Bytes, bound: nat, first: nat)
    requires SortedValues(model)
    requires IsLowerBound(model, p, bound) && IsFirstMatch(model, p, first)
    ensures first < |model| <==> bound < |model| && HasPrefix(model[bound], p)
    ensures first < |model| ==> first == bound
  {
    if bound < |model| && HasPrefix(model[bound], p) {
      forall i | 0 <= i < bound ensures !HasPrefix(model[i], p) {
        if HasPrefix(model[i], p) {
          PrefixIsBelow(model[i], p);
          LexLaws(model[i], p);
        }
      }
    }
    if first < |model| {
      PrefixIsBelow(model[first], p);
      LexLaws(model[first], p);
      assert bound <= first;
      LexLaws(model[bound], p);
      LexLaws(model[bound], model[first]);
      BetweenHasPrefix(model[bound], model[first], p);
    }
  }

  /** The linear oracle of `check_model`. */
  method FirstMatch(model: seq<Bytes>, p: Bytes) returns (j: nat)
    ensures IsFirstMatch(model, p, j)
  {
    j := 0;
    while j < |model|
      invariant j <= |model|
      invariant forall i :: 0 <= i < j ==> !HasPrefix(model[i], p)
    {
      if HasPrefix(model[j], p) { break; }
      j := j + 1;
    }
  }

  /** The cursor oracle of `compare_cursor`: what the range lookup finds, if it has the prefix. */
  method RangeMatch(model: seq<Bytes>, p: Bytes) returns (r: Option<Bytes>)
    requires SortedValues(model)
    ensures r.Some? <==> exists j :: 0 <= j < |model| && HasPrefix(model[j], p)
    ensures r.Some? ==> exists j :: 0 <= j < |model| && IsFirstMatch(model, p, j) && r.value == model[j]
  {
    var bound := 0;
    while bound < |model| && ModelCompare(model[bound], p) < 0
      invariant bound <= |model|
      invariant forall i :: 0 <= i < bound ==> Lex(model[i], p) < 0
    {
      ModelCompareIsLex(model[bound], p);
      bound := bound + 1;
    }
    if bound < |model| { ModelCompareIsLex(model[bound], p); }
    var first := FirstMatch(model, p);
    OraclesAgree(model, p, bound, first);
    if bound < |model| && HasPrefix(model[bound], p) {
      return Some(model[bound]);
    }
    return None;
  }

  // ---------------------------------------------------------------- selector spacing

  /** Selector `i` of the spacing formula, computed in 32-bit arithmetic. */
  function Selector(i: nat, dups: CUInt, selected: CUInt): nat
    requires selected < UINT_LIMIT - 1
  {
    var d := (dups as int + 1) % UINT_LIMIT;
    var product := (i + 1) * d % UINT_LIMIT;
    product / (selected as int + 1)
  }

  ghost predicate GoodSelectors(dups: CUInt, selected: CUInt)
    requires selected < UINT_LIMIT - 1
  {
    && (forall i :: 0 <= i < selected ==> 1 <= Selector(i, dups, selected) <= dups)
    && (forall i :: 0 < i < selected ==> Selector(i - 1, dups, selected) < Selector(i, dups, selected))
  }

  lemma DivAtLeast(y: nat, m: nat, s: nat)
    requires s >= 1 && y >= m * s
    ensures y / s >= m
  {
    var r := y / s;
    assert y == r * s + y % s;
    if r + 1 <= m { MulMonotone(r + 1, m, s); }
  }

  lemma DivAtMost(x: nat, m: nat, s: nat)
    requires s >= 1 && x < (m + 1) * s
    ensures x / s <= m
  {
    var q := x / s;
    assert x == q * s + x % s;
    if m + 1 <= q { MulMonotone(m + 1, q, s); }
  }

  lemma DivRises(x: nat, y: nat, s: nat)
    requires s >= 1 && x + s <= y
    ensures x / s < y / s
  {
    var q := x / s;
    assert x == q * s + x % s;
    assert (q + 1) * s == q * s + s;
    DivAtLeast(y, q + 1, s);
  }

  lemma DivMonotone(x: nat, y: nat, s: nat)
    requires s >= 1 && x <= y
    ensures x / s <= y / s
  {
    var q := x / s;
    assert x == q * s + x % s;
    DivAtLeast(y, q, s);
  }

  /** While the product stays below 2^32, the selector is what the formula says. */
  lemma SelectorValue(i: nat, dups: CUInt, selected: CUInt)
    requires selected < UINT_LIMIT - 1 && dups as int + 1 < UINT_LIMIT
    requires (i + 1) * (dups as int + 1) < UINT_LIMIT
    ensures Selector(i, dups, selected) == (i + 1) * (dups as int + 1) / (selected as int + 1)
  {
    Fits32(dups as int + 1);
    Fits32((i + 1) * (dups as int + 1));
  }

  lemma Fits32(x: nat)
    requires x < UINT_LIMIT
    ensures x % UINT_LIMIT == x
  {
  }

  lemma WrapsOnce(x: nat)
    requires UINT_LIMIT <= x < 2 * UINT_LIMIT
    ensures x % UINT_LIMIT == x - UINT_LIMIT
  {
  }

  lemma NextProduct(i: nat, d: nat)
    ensures (i + 1) * d == i * d + d
  {
  }

  /** Without wrap-around the selectors are well spaced. */
  lemma SmallSelectors(dups: CUInt, selected: CUInt, i: nat)
    requires 1 <= selected <= dups && selected < UINT_LIMIT - 1
    requires selected as int * (dups as int + 1) < UINT_LIMIT && i < selected
    ensures 1 <= Selector(i, dups, selected) <= dups
    ensures i > 0 ==> Selector(i - 1, dups, selected) < Selector(i, dups, selected)
  {
    var d, s := dups as int + 1, selected as int + 1;
    MulMonotone(1, selected, d);
    MulMonotone(i + 1, selected, d);
    SelectorValue(i, dups, selected);
    MulMonotone(1, i + 1, d);
    DivAtLeast((i + 1) * d, 1, s);
    ProductBelow(selected, d);
    DivAtMost((i + 1) * d, dups, s);
    if i > 0 {
      NextProduct(i, d);
      SelectorValue(i - 1, dups, selected);
      DivRises(i * d, (i + 1) * d, s);
    }
  }

  lemma ProductBelow(n: nat, d: nat)
    requires d >= 1
    ensures n * d < d * (n + 1)
  {
  }

  /** The first product that wraps makes a selector that is not larger than the one before it. */
  lemma {:induction false} WrappedSelectors(dups: CUInt, selected: CUInt, i: nat)
    requires 1 <= selected <= dups && selected < UINT_LIMIT - 1 && i < selected
    requires (i + 1) * (dups as int + 1) >= UINT_LIMIT
    ensures !GoodSelectors(dups, selected)
  {
    var d, s := dups as int + 1, selected as int + 1;
    if d == UINT_LIMIT {
      assert Selector(0, dups, selected) == 0 / s == 0;
    } else {
      NextProduct(i, d);
      if i * d >= UINT_LIMIT {
        WrappedSelectors(dups, selected, i - 1);
      } else {
        assert i > 0;
        SelectorValue(i - 1, dups, selected);
        WrappedValue(i, dups, selected);
        DivMonotone((i + 1) * d - UINT_LIMIT, i * d, s);
      }
    }
  }

  lemma WrappedValue(i: nat, dups: CUInt, selected: CUInt)
    requires selected < UINT_LIMIT - 1 && dups as int + 1 < UINT_LIMIT
    requires UINT_LIMIT <= (i + 1) * (dups as int + 1) < 2 * UINT_LIMIT
    ensures Selector(i, dups, selected) == ((i + 1) * (dups as int + 1) - UINT_LIMIT) / (selected as int + 1)
  {
    Fits32(dups as int + 1);
    WrapsOnce((i + 1) * (dups as int + 1));
  }

  /** For the arguments the benchmark admits, the selectors lie in 1..dups and rise strictly if and
      only if the largest product fits 32 bits. */
  lemma SelectorsAreGoodIffNoWrap(dups: CUInt, selected: CUInt)
    requires 1 <= selected <= dups && selected < UINT_LIMIT - 1
    ensures GoodSelectors(dups, selected) <==> selected as int * (dups as int + 1) < UINT_LIMIT
  {
    if selected as int * (dups as int + 1) < UINT_LIMIT {
      forall i | 0 <= i < selected
        ensures 1 <= Selector(i, dups, selected) <= dups
        ensures i > 0 ==> Selector(i - 1, dups, selected) < Selector(i, dups, selected)
      {
        SmallSelectors(dups, selected, i);
      }
    } else {
      WrappedSelectors(dups, selected, selected - 1);
    }
  }

  /** Arguments the benchmark takes and the spacing fails for: the last of 65536 selectors over 65536
      duplicates is 0. */
  lemma WrappedSpacing()
    ensures Selector(65535, 65536, 65536) == 0 && !GoodSelectors(65536, 65536)
  {
    assert 65536 * 65537 % UINT_LIMIT == 65536;
  }

  // ---------------------------------------------------------------- the merge walk

  ghost predicate Increasing(aids: seq<nat>) {
    forall i, j :: 0 <= i < j < |aids| ==> aids[i] < aids[j]
  }

  /** The loop that fills the selector array. */
  method FillSelectors(dups: CUInt, selected: CUInt) returns (aids: array<nat>)
    requires selected < UINT_LIMIT - 1
    ensures fresh(aids) && aids.Length == selected
    ensures forall i :: 0 <= i < selected ==> aids[i] == Selector(i, dups, selected)
  {
    aids := new nat[selected];
    var i := 0;
    while i < selected
      invariant 0 <= i <= selected
      invariant forall k :: 0 <= k < i ==> aids[k] == Selector(k, dups, selected)
    {
      aids[i] := Selector(i, dups, selected);
      i := i + 1;
    }
  }

  /** Good selectors are what the merge walk needs. */
  lemma {:induction false} GoodSelectorsIncrease(dups: CUInt, selected: CUInt, i: nat, j: nat)
    requires selected < UINT_LIMIT - 1 && GoodSelectors(dups, selected) && i < j < selected
    ensures Selector(i, dups, selected) < Selector(j, dups, selected)
  {
    assert Selector(j - 1, dups, selected) < Selector(j, dups, selected);
    if i < j - 1 { GoodSelectorsIncrease(dups, selected, i, j - 1); }
  }

  ghost function Selectors(dups: CUInt, selected: CUInt): seq<nat>
    requires selected < UINT_LIMIT - 1
  {
    seq(selected, i requires 0 <= i < selected => Selector(i, dups, selected))
  }

  /** What the walk adds up: for each selector the weight of the duplicate with that number. */
  ghost function SumSelected(weights: seq<nat>, aids: seq<nat>, n: nat): nat
    requires n <= |aids| && (forall i :: 0 <= i < |aids| ==> 1 <= aids[i] <= |weights|)
  {
    if n == 0 then 0 else SumSelected(weights, aids, n - 1) + weights[aids[n - 1] - 1]
  }

  /** Nothing weighs nothing. */
  lemma {:induction false} SumOfZeros(weights: seq<nat>, aids: seq<nat>, n: nat)
    requires n <= |aids| && (forall i :: 0 <= i < |aids| ==> 1 <= aids[i] <= |weights|)
    requires forall k :: 0 <= k < |weights| ==> weights[k] == 0
    ensures SumSelected(weights, aids, n) == 0
  {
    if n > 0 { SumOfZeros(weights, aids, n - 1); }
  }

  /** A duplicate adds its weight to the sum if it is selected, and nothing if it is not. Together with
      `SumOfZeros` this determines the sum. */
  lemma {:induction false} SumCountsSelected(weights: seq<nat>, k: nat, w: nat, aids: seq<nat>, n: nat)
    requires n <= |aids| && (forall i :: 0 <= i < |aids| ==> 1 <= aids[i] <= |weights|)
    requires Increasing(aids) && k < |weights| && weights[k] == 0
    ensures SumSelected(weights[k := w], aids, n)
         == SumSelected(weights, aids, n) + if k + 1 in aids[..n] then w else 0
  {
    if n > 0 {
      SumCountsSelected(weights, k, w, aids, n - 1);
      assert aids[..n] == aids[..n - 1] + [aids[n - 1]];
      assert aids[n - 1] !in aids[..n - 1];
    }
  }

  /** The full-row walk: duplicate `i` has number `i + 1`, and `weights[i]` is its size plus its last
      byte. One pass finds every selector; neither assertion of the program can fail. */
  method MergeWalk(weights: seq<nat>, aids: seq<nat>) returns (sum: nat, wanted: nat)
    requires Increasing(aids) && forall i :: 0 <= i < |aids| ==> 1 <= aids[i] <= |weights|
    ensures wanted == |aids|
    ensures sum == SumSelected(weights, aids, |aids|)
  {
    sum, wanted := 0, 0;
    var i := 0;
    while i < |weights| && wanted < |aids|
      invariant 0 <= i <= |weights| && wanted <= |aids|
      invariant wanted < |aids| ==> aids[wanted] > i
      invariant sum == SumSelected(weights, aids, wanted)
    {
      var a := i + 1;
      if a >= aids[wanted] {
        assert a == aids[wanted];
        sum := sum + weights[i];
        wanted := wanted + 1;
      }
      i := i + 1;
    }
    assert wanted == |aids|;
  }

  /** A whole row of the benchmark: with selectors from the formula and one weight for each duplicate,
      the walk finds all of them whenever the largest product fits 32 bits. */
  method FullRow(weights: seq<nat>, dups: CUInt, selected: CUInt) returns (sum: nat, wanted: nat)
    requires 1 <= selected <= dups && selected < UINT_LIMIT - 1 && |weights| == dups
    requires selected as int * (dups as int + 1) < UINT_LIMIT
    ensures wanted == selected
    ensures GoodSelectors(dups, selected) && sum == SumSelected(weights, Selectors(dups, selected), selected)
  {
    SelectorsAreGoodIffNoWrap(dups, selected);
    var aids := FillSelectors(dups, selected);
    forall i, j | 0 <= i < j < |aids[..]| ensures aids[..][i] < aids[..][j] {
      GoodSelectorsIncrease(dups, selected, i, j);
    }
    assert aids[..] == Selectors(dups, selected);
    sum, wanted := MergeWalk(weights, aids[..]);
  }
}
