/** The byte-wise comparison functions of the tests and benchmarks: `cmp_key`, `dtlv_cmp_memn`
    (mtest_count.c, count_bench.c) and `model_compare` (mtest_dup_projection.c). */
module ByteOrder {
  import opened CTypes
  import opened Encoding

  /** `memcmp` of the first `n` bytes: the difference of the first bytes that differ. */
  function Memcmp(a: Bytes, b: Bytes, n: nat): int
    requires n <= |a| && n <= |b|
    decreases n
  {
    if n == 0 then 0
    else if a[0] != b[0] then a[0] as int - b[0] as int
    else Memcmp(a[1..], b[1..], n - 1)
  }

  function Min(m: nat, n: nat): nat { if m < n then m else n }

  function CmpKey(a: Bytes, b: Bytes): int {
    var diff := Memcmp(a, b, Min(|a|, |b|));
    if diff != 0 then diff
    else if |a| < |b| then -1
    else if |a| > |b| then 1
    else 0
  }

  /** A 64-bit value cast to `int`: its low 32 bits, as a signed number. */
  function ToInt(x: int): CInt {
    (x + INT_LIMIT) % UINT_LIMIT - INT_LIMIT
  }

  function CmpMemn(a: Bytes, b: Bytes): int {
    var len := |a| % UINT_LIMIT;
    var len_diff := |a| - |b|;
    var len' := if len_diff > 0 then |b| % UINT_LIMIT else len;
    var diff := Memcmp(a, b, len');
    if diff != 0 then diff else ToInt(len_diff)
  }

  function ModelCompare(a: Bytes, b: Bytes): int {
    var cmp := Memcmp(a, b, Min(|a|, |b|));
    if cmp != 0 then cmp else (if |a| > |b| then 1 else 0) - (if |a| < |b| then 1 else 0)
  }

  function Sign(x: int): int { if x < 0 then -1 else if x > 0 then 1 else 0 }

  // ---------------------------------------------------------------- the reference: dictionary order

  ghost function Lex(a: Bytes, b: Bytes): int {
    if a == [] then if b == [] then 0 else -1
    else if b == [] then 1
    else if a[0] != b[0] then if a[0] < b[0] then -1 else 1
    else Lex(a[1..], b[1..])
  }

  lemma {:induction false} CmpKeyIsLex(a: Bytes, b: Bytes)
    ensures Sign(CmpKey(a, b)) == Lex(a, b)
    decreases |a|
  {
    if a != [] && b != [] && a[0] == b[0] {
      CmpKeyIsLex(a[1..], b[1..]);
    }
  }

  lemma ModelCompareIsLex(a: Bytes, b: Bytes)
    ensures Sign(ModelCompare(a, b)) == Lex(a, b)
  {
    CmpKeyIsLex(a, b);
  }

  lemma {:induction false} LexLaws(a: Bytes, b: Bytes)
    ensures Lex(a, b) == 0 <==> a == b
    ensures Lex(a, b) == -Lex(b, a)
    decreases |a|
  {
    if a != [] && b != [] {
      LexLaws(a[1..], b[1..]);
      assert a == [a[0]] + a[1..] && b == [b[0]] + b[1..];
    }
  }

  /** The strings agree in front of position `k`, and there `a` ends or has the smaller byte. */
  ghost predicate DiffersAt(a: Bytes, b: Bytes, k: nat) {
    && k <= |a| && k < |b| && (forall i :: 0 <= i < k ==> a[i] == b[i])
    && (k < |a| ==> a[k] as int < b[k] as int)
  }

  /** Dictionary order: byte by byte, a proper prefix first. */
  lemma {:induction false} LexMeans(a: Bytes, b: Bytes)
    ensures Lex(a, b) < 0 <==> exists k :: DiffersAt(a, b, k)
    decreases |a|
  {
    if a == [] {
      if b != [] { assert DiffersAt(a, b, 0); }
    } else if b != [] && a[0] == b[0] {
      LexMeans(a[1..], b[1..]);
      if Lex(a[1..], b[1..]) < 0 {
        var k :| DiffersAt(a[1..], b[1..], k);
        DiffersBehind(a, b, k);
      }
      forall k | DiffersAt(a, b, k) ensures Lex(a, b) < 0 {
        DiffersInTail(a, b, k);
      }
    } else if b != [] && a[0] < b[0] {
      assert DiffersAt(a, b, 0);
    }
  }

  lemma DiffersBehind(a: Bytes, b: Bytes, k: nat)
    requires a != [] && b != [] && a[0] == b[0] && DiffersAt(a[1..], b[1..], k)
    ensures DiffersAt(a, b, k + 1)
  {
    forall i | 0 <= i < k + 1 ensures a[i] == b[i] {
      if i > 0 { assert a[1..][i - 1] == b[1..][i - 1]; }
    }
  }

  lemma DiffersInTail(a: Bytes, b: Bytes, k: nat)
    requires a != [] && b != [] && a[0] == b[0] && DiffersAt(a, b, k)
    ensures k > 0 && DiffersAt(a[1..], b[1..], k - 1)
  {
    forall i | 0 <= i < k - 1 ensures a[1..][i] == b[1..][i] {
      assert a[i + 1] == b[i + 1];
    }
  }

  lemma {:induction false} LexTransitive(a: Bytes, b: Bytes, c: Bytes)
    requires Lex(a, b) <= 0 && Lex(b, c) <= 0
    ensures Lex(a, c) <= 0
    ensures Lex(a, b) < 0 || Lex(b, c) < 0 ==> Lex(a, c) < 0
    decreases |a|
  {
    if a != [] && b != [] && c != [] && a[0] == b[0] && b[0] == c[0] {
      LexTransitive(a[1..], b[1..], c[1..]);
    }
  }

  // ---------------------------------------------------------------- comparison functions

  type Compare = (Bytes, Bytes) -> int

  /** What a key comparison must satisfy, on the keys it is used for. */
  ghost predicate TotalOrderOn(cmp: Compare, keys: set<Bytes>) {
    && (forall a, b :: a in keys && b in keys ==> (cmp(a, b) < 0 <==> cmp(b, a) > 0))
    && (forall a, b, c :: a in keys && b in keys && c in keys && cmp(a, b) < 0 && cmp(b, c) <= 0 ==> cmp(a, c) < 0)
    && (forall a, b, c :: a in keys && b in keys && c in keys && cmp(a, b) <= 0 && cmp(b, c) < 0 ==> cmp(a, c) < 0)
  }

  /** `cmp_key` is a total order on all byte strings, with equality only on equal keys. */
  lemma CmpKeyLaws(a: Bytes, b: Bytes, c: Bytes)
    ensures CmpKey(a, b) < 0 <==> CmpKey(b, a) > 0
    ensures CmpKey(a, b) == 0 <==> a == b
    ensures CmpKey(a, b) <= 0 && CmpKey(b, c) <= 0 ==> CmpKey(a, c) <= 0
    ensures CmpKey(a, b) <= 0 && CmpKey(b, c) <= 0 && (CmpKey(a, b) < 0 || CmpKey(b, c) < 0) ==> CmpKey(a, c) < 0
  {
    CmpKeyIsLex(a, b);
    CmpKeyIsLex(b, a);
    CmpKeyIsLex(b, c);
    CmpKeyIsLex(a, c);
    LexLaws(a, b);
    if CmpKey(a, b) <= 0 && CmpKey(b, c) <= 0 { LexTransitive(a, b, c); }
  }

  lemma CmpKeyIsTotalOrder(keys: set<Bytes>)
    ensures TotalOrderOn(CmpKey, keys)
  {
    forall a, b, c ensures CmpKey(a, b) < 0 <==> CmpKey(b, a) > 0
                   ensures CmpKey(a, b) < 0 && CmpKey(b, c) <= 0 ==> CmpKey(a, c) < 0
                   ensures CmpKey(a, b) <= 0 && CmpKey(b, c) < 0 ==> CmpKey(a, c) < 0
    {
      CmpKeyLaws(a, b, c);
    }
  }

  /** Two comparisons that order the given keys alike. */
  ghost predicate SameOrderOn(cmp: Compare, cmp': Compare, keys: set<Bytes>) {
    forall a, b :: a in keys && b in keys ==> Sign(cmp(a, b)) == Sign(cmp'(a, b))
  }

  lemma SameOrderIsTotal(cmp: Compare, cmp': Compare, keys: set<Bytes>)
    requires TotalOrderOn(cmp, keys) && SameOrderOn(cmp, cmp', keys)
    ensures TotalOrderOn(cmp', keys)
  {
    forall a, b | a in keys && b in keys ensures cmp'(a, b) < 0 <==> cmp'(b, a) > 0 {
      SameSigns(cmp, cmp', keys, a, b);
      SameSigns(cmp, cmp', keys, b, a);
    }
    forall a, b, c | a in keys && b in keys && c in keys && cmp'(a, b) <= 0 && cmp'(b, c) <= 0
      ensures cmp'(a, b) < 0 || cmp'(b, c) < 0 ==> cmp'(a, c) < 0
    {
      SameSigns(cmp, cmp', keys, a, b);
      SameSigns(cmp, cmp', keys, b, c);
      SameSigns(cmp, cmp', keys, a, c);
    }
  }

  lemma SameSigns(cmp: Compare, cmp': Compare, keys: set<Bytes>, a: Bytes, b: Bytes)
    requires SameOrderOn(cmp, cmp', keys) && a in keys && b in keys
    ensures cmp(a, b) < 0 <==> cmp'(a, b) < 0
    ensures cmp(a, b) > 0 <==> cmp'(a, b) > 0
  {
    assert Sign(cmp(a, b)) == Sign(cmp'(a, b));
  }

  /** For sizes that fit 32 bits, `dtlv_cmp_memn` orders two keys as `cmp_key` does, except when one
      is a prefix of the other and their lengths differ by so much that the cast changes the sign. */
  lemma CmpMemnAgreesIff(a: Bytes, b: Bytes)
    requires |a| < UINT_LIMIT && |b| < UINT_LIMIT
    ensures Sign(CmpMemn(a, b)) == Sign(CmpKey(a, b))
       <==> Memcmp(a, b, Min(|a|, |b|)) != 0 || -INT_LIMIT <= |a| - |b| < INT_LIMIT
  {
    var d := |a| - |b|;
    assert Min(|a|, |b|) == if d > 0 then |b| else |a|;
    if d >= INT_LIMIT {
      assert (d + INT_LIMIT) % UINT_LIMIT == d + INT_LIMIT - UINT_LIMIT;
    } else if d >= -INT_LIMIT {
      assert (d + INT_LIMIT) % UINT_LIMIT == d + INT_LIMIT;
    } else {
      assert (d + INT_LIMIT) % UINT_LIMIT == d + INT_LIMIT + UINT_LIMIT;
    }
  }

  /** A key of 2^31 bytes. */
  ghost function LongKey(): Bytes {
    seq(INT_LIMIT, _ => NUL)
  }

  /** Keys on which they differ: `dtlv_cmp_memn` sorts the long key below the empty one. */
  lemma LongKeyBelowEmptyKey()
    ensures CmpMemn(LongKey(), []) < 0 < CmpKey(LongKey(), [])
  {
    assert (INT_LIMIT + INT_LIMIT) % UINT_LIMIT == 0;
  }

  /** Below 2^31 bytes, which every key the engine stores is, the two comparisons order keys alike. */
  lemma CmpMemnOrdersShortKeys(keys: set<Bytes>)
    requires forall a <- keys :: |a| < INT_LIMIT
    ensures SameOrderOn(CmpKey, CmpMemn, keys) && TotalOrderOn(CmpMemn, keys)
  {
    forall a, b | a in keys && b in keys ensures Sign(CmpKey(a, b)) == Sign(CmpMemn(a, b)) {
      CmpMemnAgreesIff(a, b);
    }
    CmpKeyIsTotalOrder(keys);
    SameOrderIsTotal(CmpKey, CmpMemn, keys);
  }
}
