/** Growable ID lists: allocation, growth and the append operations (midl.c, midl.h). */
module MidlList {
  import opened CTypes
  import opened MidlSort
  import opened MidlMerge

  const UM_SIZE := 0x2_0000
  const UM_MAX: MdbId := UM_SIZE - 1
  /** No allocator hands out more than `PTRDIFF_MAX` bytes, that is this many 8-byte words. */
  const MAX_WORDS := 0x1000_0000_0000_0000

  datatype Rc = Success | NoMemory

  // ---------------------------------------------------------------- the arithmetic of `need`

  /** The entries in all: a 32-bit sum. */
  function NeedTotal(count: MdbId, num: CUInt): CUInt {
    (num as int + count as int) % UINT_LIMIT
  }

  /** The number of words asked for, in 32-bit arithmetic: a quarter and 258 more, rounded down to a
      multiple of 256. */
  function NeedWords(n: CUInt): CUInt {
    var w := (n as int + n as int / 4 + 258) % UINT_LIMIT;
    w - w % 256
  }

  /** After `need` the list has room for `num` more entries. Zero words is no block at all. */
  ghost predicate NeedMakesRoom(alloc: MdbId, count: MdbId, num: CUInt) {
    var n := NeedTotal(count, num);
    if n > alloc then NeedWords(n) != 0 && count as int + num as int <= NeedWords(n) as int - 2
    else count as int + num as int <= alloc
  }

  /** What a caller can check beforehand: the room is there already, or the request with its
      quarter of slack stays below 2^32. */
  predicate NeedFits(alloc: MdbId, count: MdbId, num: CUInt) {
    var total := count as int + num as int;
    total <= alloc || total + total / 4 + 258 < UINT_LIMIT
  }

  /** `need` keeps its promise exactly when no 32-bit sum wraps. */
  lemma NeedKeepsPromiseIffNoWrap(alloc: MdbId, count: MdbId, num: CUInt)
    ensures NeedMakesRoom(alloc, count, num) <==> NeedFits(alloc, count, num)
  {
    var total := count as int + num as int;
    var n := NeedTotal(count, num);
    if total <= alloc {
      assert n <= total;
    } else if total + total / 4 + 258 < UINT_LIMIT {
      assert n == total;
      NeedLeavesSlack(n);
    } else {
      NeedWordsUpper(n);
      if total < UINT_LIMIT {
        assert n == total;
        NeedWordsWrapped(n);
      }
    }
  }

  /** Requests that break it: for 3435973836 more entries an empty list ends up, with success, with room
      for 254; for 3435973631 the number of words asked for wraps to 0. */
  lemma NeedBreaksPromise(alloc: MdbId)
    requires alloc == UM_MAX
    ensures !NeedMakesRoom(alloc, 0, 3435973836) && NeedWords(NeedTotal(0, 3435973836)) - 2 == 254
    ensures !NeedMakesRoom(alloc, 0, 3435973631) && NeedWords(NeedTotal(0, 3435973631)) == 0
  {
  }

  /** Despite the rounding down to a multiple of 256, the new capacity exceeds the request by more
      than a quarter. */
  lemma NeedLeavesSlack(n: CUInt)
    requires n as int + n as int / 4 + 258 < UINT_LIMIT
    ensures NeedWords(n) as int - 2 >= n as int + n as int / 4 + 1
  {
  }

  /** The new capacity in numbers: with the two extra words, the largest multiple of 256 within the
      entries needed, a quarter of them and 258 more. */
  ghost predicate CapacityFor(total: int, capacity: int) {
    (capacity + 2) % 256 == 0 && capacity + 2 <= total + total / 4 + 258 < capacity + 2 + 256
  }

  lemma RoundedDown(w: nat)
    ensures (w - w % 256) % 256 == 0 && w - w % 256 <= w < w - w % 256 + 256
  {
    assert w - w % 256 == 256 * (w / 256);
  }

  lemma NeedWordsInNumbers(n: CUInt)
    requires n as int + n as int / 4 + 258 < UINT_LIMIT
    ensures CapacityFor(n, NeedWords(n) as int - 2)
  {
    RoundedDown(n as int + n as int / 4 + 258);
  }

  lemma NeedWordsUpper(n: CUInt)
    ensures NeedWords(n) as int <= UINT_LIMIT - 256
  {
    var w := (n as int + n as int / 4 + 258) % UINT_LIMIT;
    assert UINT_LIMIT == 256 * 0x100_0000;
    assert w - w % 256 == 256 * (w / 256);
  }

  lemma NeedWordsWrapped(n: CUInt)
    requires n as int + n as int / 4 + 258 >= UINT_LIMIT
    ensures NeedWords(n) as int - 2 < n
  {
    var w := (n as int + n as int / 4 + 258) % UINT_LIMIT;
    assert w == n as int + n as int / 4 + 258 - UINT_LIMIT;
  }

  // ---------------------------------------------------------------- the lists

  /** The IDs `id .. id + n - 1`, largest first. */
  ghost function DescendingRange(id: int, n: nat): seq<MdbId>
    requires 0 <= id && id + n <= SIZE_LIMIT
  {
    seq(n, k requires 0 <= k < n => id + n - 1 - k)
  }

  /** The number with all the low bits of `MDB_IDL_UM_MAX` set. */
  function OrUmMax(n: int): int {
    n - n % UM_SIZE + UM_MAX
  }

  lemma OrUmMaxBounds(n: CUInt)
    requires n < INT_LIMIT
    ensures n <= OrUmMax(n) < INT_LIMIT
  {
    assert INT_LIMIT == UM_SIZE * 0x4000;
    assert n - n % UM_SIZE == UM_SIZE * (n / UM_SIZE);
  }

  // ---------------------------------------------------------------- runs of operations

  /** A list as its callers know it. `moved` counts the entries that reallocation has moved so far. */
  datatype ListState = ListState(contents: seq<MdbId>, alloc: int, moved: int)

  /** The operations that make room or append: `need`, `xappend`, `append`, `append_list` and
      `append_range`. */
  datatype Request = RoomFor(num: CUInt) | Push(id: MdbId) | One(id: MdbId)
                   | Many(app: seq<MdbId>) | Range(id: MdbId, n: CUInt)

  /** An operation, and whether memory would be granted to it. */
  datatype Call = Call(req: Request, granted: bool)

  /** What the source asks of the caller: no 32-bit wrap-around, and room for `xappend`. */
  ghost predicate Admissible(st: ListState, req: Request) {
    match req
    case RoomFor(num) =>
      |st.contents| < SIZE_LIMIT && 0 <= st.alloc < SIZE_LIMIT && NeedFits(st.alloc, |st.contents|, num)
    case Push(_) => |st.contents| < st.alloc
    case One(_) => true
    case Many(app) => |app| < INT_LIMIT
    case Range(id, n) => n < INT_LIMIT && id as int + n as int <= SIZE_LIMIT
  }

  /** The IDs an operation appends. */
  ghost function Ids(st: ListState, req: Request): seq<MdbId>
    requires Admissible(st, req)
  {
    match req
    case RoomFor(_) => []
    case Push(id) => [id]
    case One(id) => [id]
    case Many(app) => app
    case Range(id, n) => DescendingRange(id, n)
  }

  /** The capacity an operation reallocates to, if it has to. */
  ghost function NewCapacity(st: ListState, req: Request): Option<int>
    requires Admissible(st, req)
  {
    var count := |st.contents|;
    match req
    case RoomFor(num) =>
      if count + num as int > st.alloc then Some(NeedWords(NeedTotal(count, num)) as int - 2) else None
    case Push(_) => None
    case One(_) => if count >= st.alloc then Some(st.alloc + UM_MAX as int) else None
    case Many(app) => if count + |app| >= st.alloc then Some(st.alloc + |app|) else None
    case Range(_, n) => if count + n as int > st.alloc then Some(st.alloc + OrUmMax(n)) else None
  }

  ghost predicate Served(st: ListState, call: Call)
    requires Admissible(st, call.req)
  {
    var capacity := NewCapacity(st, call.req);
    capacity.Some? ==> call.granted && capacity.value + 2 <= MAX_WORDS
  }

  /** The list after an operation; a refused one changes nothing. */
  ghost function AfterCall(st: ListState, call: Call): ListState
    requires Admissible(st, call.req)
  {
    if !Served(st, call) then st
    else
      var contents := st.contents + Ids(st, call.req);
      match NewCapacity(st, call.req)
      case None => st.(contents := contents)
      case Some(capacity) => ListState(contents, capacity, st.moved + st.alloc)
  }

  ghost predicate AllAdmissible(st: ListState, calls: seq<Call>)
    decreases |calls|
  {
    calls == [] || (Admissible(st, calls[0].req) && AllAdmissible(AfterCall(st, calls[0]), calls[1..]))
  }

  ghost function AfterCalls(st: ListState, calls: seq<Call>): ListState
    requires AllAdmissible(st, calls)
    decreases |calls|
  {
    if calls == [] then st else AfterCalls(AfterCall(st, calls[0]), calls[1..])
  }

  /** The IDs appended by the operations of a run that were not refused. */
  ghost function ServedIds(st: ListState, calls: seq<Call>): seq<MdbId>
    requires AllAdmissible(st, calls)
    decreases |calls|
  {
    if calls == [] then []
    else (if Served(st, calls[0]) then Ids(st, calls[0].req) else []) + ServedIds(AfterCall(st, calls[0]), calls[1..])
  }

  /** The entries fit the capacity. */
  ghost predicate Sound(st: ListState) {
    |st.contents| <= st.alloc && st.alloc + 2 <= MAX_WORDS
  }

  lemma CallKeepsSound(st: ListState, call: Call)
    requires Sound(st) && Admissible(st, call.req)
    ensures Sound(AfterCall(st, call))
    ensures AfterCall(st, call).contents == st.contents + if Served(st, call) then Ids(st, call.req) else []
  {
    if call.req.RoomFor? { RoomIsMade(st, call.req.num); }
    if call.req.Range? { OrUmMaxBounds(call.req.n); }
  }

  lemma RoomIsMade(st: ListState, num: CUInt)
    requires Sound(st) && Admissible(st, RoomFor(num))
    ensures var total, capacity := |st.contents| + num as int, NewCapacity(st, RoomFor(num));
      if total <= st.alloc then capacity == None
      else capacity.Some? && capacity.value >= total + total / 4 + 1 && capacity.value + 2 <= UINT_LIMIT
  {
    var total := |st.contents| + num as int;
    if total > st.alloc {
      assert NeedTotal(|st.contents|, num) == total;
      NeedLeavesSlack(total);
    }
  }

  /** What a call of `need` that does not wrap amounts to. */
  lemma NeedServes(st: ListState, num: CUInt, granted: bool)
    requires Sound(st) && Admissible(st, RoomFor(num))
    ensures var n, call := NeedTotal(|st.contents|, num), Call(RoomFor(num), granted);
      var after := AfterCall(st, call);
      if n <= st.alloc then Served(st, call) && after == st
      else if !granted then !Served(st, call) && after == st
      else Served(st, call) && NeedWords(n) > |st.contents| + 1
           && after == ListState(st.contents, NeedWords(n) as int - 2, st.moved + st.alloc)
           && CapacityFor(|st.contents| + num as int, after.alloc)
  {
    RoomIsMade(st, num);
    NeedTotalFits(st, num);
    if |st.contents| + num as int > st.alloc { NeedWordsInNumbers(|st.contents| + num as int); }
    assert st.contents + [] == st.contents;
  }

  lemma NeedTotalFits(st: ListState, num: CUInt)
    requires Sound(st) && Admissible(st, RoomFor(num))
    ensures var total, n := |st.contents| + num as int, NeedTotal(|st.contents|, num);
      if total <= st.alloc then n <= st.alloc else n == total
  {
    if |st.contents| + num as int <= st.alloc { NeedTotalBelow(|st.contents|, num); }
  }

  lemma NeedTotalBelow(count: MdbId, num: CUInt)
    ensures NeedTotal(count, num) as int <= count as int + num as int
  {
  }

  /** Over every run of the five operations without wrap-around, mixed in any way and with memory
      refused at any point: the entries never exceed the capacity, and the contents are what they were
      followed by the IDs of the operations that were served, in order. */
  lemma {:induction false} RunConcatenates(st: ListState, calls: seq<Call>)
    requires Sound(st) && AllAdmissible(st, calls)
    ensures Sound(AfterCalls(st, calls))
    ensures AfterCalls(st, calls).contents == st.contents + ServedIds(st, calls)
    decreases |calls|
  {
    if calls != [] {
      CallKeepsSound(st, calls[0]);
      var st', more := AfterCall(st, calls[0]), calls[1..];
      var ids := if Served(st, calls[0]) then Ids(st, calls[0].req) else [];
      RunConcatenates(st', more);
      assert st.contents + ids + ServedIds(st', more) == st.contents + (ids + ServedIds(st', more));
    }
  }

  /** Growth by `need` only: room is asked for first, then the IDs are pushed. */
  ghost predicate GrowsByNeed(calls: seq<Call>) {
    forall k :: 0 <= k < |calls| ==> calls[k].req.RoomFor? || calls[k].req.Push?
  }

  ghost predicate Amortised(st: ListState) {
    Sound(st) && st.moved <= 4 * st.alloc
  }

  lemma CallKeepsAmortised(st: ListState, call: Call)
    requires Amortised(st) && Admissible(st, call.req) && (call.req.RoomFor? || call.req.Push?)
    ensures Amortised(AfterCall(st, call))
  {
    CallKeepsSound(st, call);
    if call.req.RoomFor? { RoomIsMade(st, call.req.num); }
  }

  /** Over any run of `need` and `xappend`, reallocation moves at most four times the final capacity in
      total: growth costs constant amortised time per entry of capacity. */
  lemma {:induction false} GrowthIsAmortised(st: ListState, calls: seq<Call>)
    requires Amortised(st) && AllAdmissible(st, calls) && GrowsByNeed(calls)
    ensures Amortised(AfterCalls(st, calls))
    decreases |calls|
  {
    if calls != [] {
      CallKeepsAmortised(st, calls[0]);
      GrowthIsAmortised(AfterCall(st, calls[0]), calls[1..]);
    }
  }

  // ---------------------------------------------------------------- the lists in memory

  lemma EntriesCarriedOver(s: seq<MdbId>, t: seq<MdbId>)
    requires IsList(s) && s[0] as int < |t|
    requires forall k {:trigger t[k]} :: 0 <= k <= s[0] as int ==> t[k] == s[k]
    ensures IsList(t) && Entries(t) == Entries(s)
  {
    forall k | 0 <= k < |Entries(s)| ensures Entries(t)[k] == Entries(s)[k] {
      assert t[k + 1] == s[k + 1];
    }
  }

  lemma EntriesOfExtended(s: seq<MdbId>, t: seq<MdbId>, n: int, tail: seq<MdbId>)
    requires IsList(s) && s[0] == n
    requires |t| >= 1 && t[0] as int == n + |tail| < |t|
    requires forall k {:trigger t[k]} :: 1 <= k <= n ==> t[k] == s[k]
    requires forall k {:trigger tail[k]} :: 0 <= k < |tail| ==> t[n + 1 + k] == tail[k]
    ensures Entries(t) == Entries(s) + tail
  {
    var e := Entries(t);
    forall k | 0 <= k < |e| ensures e[k] == (Entries(s) + tail)[k] {
      if k >= n { assert t[n + 1 + (k - n)] == tail[k - n]; }
    }
  }

  class IdList {
    /** The word in front of the list, `ids[-1]`: how many entries the block has room for. */
    var alloc: MdbId
    /** Entry 0 counts the entries; they follow from entry 1 on. */
    var ids: array<MdbId>
    ghost var moved: nat

    ghost predicate Valid()
      reads this, ids
    {
      ids.Length == alloc as int + 1 && ids[0] <= alloc && alloc as int + 2 <= MAX_WORDS
    }

    ghost function Contents(): seq<MdbId>
      requires Valid()
      reads this, ids
    {
      Entries(ids[..])
    }

    ghost function State(): (st: ListState)
      requires Valid()
      reads this, ids
      ensures Sound(st)
    {
      ListState(Contents(), alloc, moved)
    }

    constructor (num: CInt)
      requires 0 <= num
      ensures Valid() && fresh(ids) && State() == ListState([], num, 0)
    {
      alloc := num;
      ids := new MdbId[num as int + 1];
      moved := 0;
      new;
      ids[0] := 0;
    }

    /** `realloc` of the block to `words` words, the front word included. When memory is refused
        nothing changes; otherwise the entries that fit are carried over. For zero words the block is
        released and no other one is given. */
    method Realloc(words: int, granted: bool) returns (ok: bool)
      requires words >= 2 || words == 0
      requires alloc as int + 1 == ids.Length
      modifies `ids, `moved
      ensures ok == (granted && 2 <= words <= MAX_WORDS)
      ensures words == 0 ==> fresh(ids) && ids.Length == 0
      ensures words != 0 && !ok ==> ids == old(ids) && moved == old(moved)
      ensures ok ==> fresh(ids) && ids.Length == words - 1 && moved == old(moved) + old(alloc) as int
      ensures ok ==> forall k :: 0 <= k < words - 1 && k < old(ids).Length ==> ids[k] == old(ids[k])
    {
      if words == 0 {
        ids := new MdbId[0];
        return false;
      }
      ok := granted && words <= MAX_WORDS;
      if ok {
        var block := new MdbId[words - 1];
        forall k | 0 <= k < words - 1 && k < ids.Length {
          block[k] := ids[k];
        }
        ids := block;
        moved := moved + alloc as int;
      }
    }

    /** `mdb_midl_grow` */
    method Grow(num: CInt, granted: bool) returns (rc: Rc)
      requires Valid() && num >= 0
      modifies this
      ensures Valid() && Contents() == old(Contents())
      ensures rc.Success? <==> granted && old(alloc) as int + num as int + 2 <= MAX_WORDS
      ensures rc.Success? ==> fresh(ids) && alloc as int == old(alloc) as int + num as int
      ensures rc.Success? ==> moved == old(moved) + old(alloc) as int
      ensures rc.NoMemory? ==> ids == old(ids) && alloc == old(alloc) && moved == old(moved)
    {
      ghost var s := ids[..];
      var ok := Realloc(alloc as int + num as int + 2, granted);
      if !ok {
        assert ids[..] == s;
        return NoMemory;
      }
      alloc := alloc as int + num as int;
      EntriesCarriedOver(s, ids[..]);
      return Success;
    }

    /** `mdb_midl_shrink`: cuts an oversized block back to the default capacity. The list survives
        exactly when its entries fit that capacity. */
    method Shrink(granted: bool)
      requires Valid()
      modifies this
      ensures old(alloc) > 131071 && granted ==> alloc == 131071 && ids.Length == 131072 && fresh(ids)
      ensures !(old(alloc) > 131071 && granted) ==> alloc == old(alloc) && ids == old(ids)
      ensures Valid() <==> old(alloc) <= 131071 || !granted || |old(Contents())| <= 131071
      ensures Valid() ==> Contents() == old(Contents())
    {
      if alloc > UM_MAX {
        var ok := Realloc(UM_MAX as int + 2, granted);
        if ok { alloc := UM_MAX; }
      }
    }

    /** `mdb_midl_need`, wrap-around included. As long as `NeedFits`, the entries survive and there is
        room for `num` more. A request that wraps to zero words loses the block. */
    method Need(num: CUInt, granted: bool) returns (rc: Rc)
      requires Valid()
      modifies this
      ensures var n := NeedTotal(old(ids[0]), num);
        && (n <= old(alloc) ==> rc.Success? && ids == old(ids) && alloc == old(alloc) && moved == old(moved))
        && (n > old(alloc) ==> (rc.Success? <==> granted && NeedWords(n) != 0))
        && (n > old(alloc) && rc.Success? ==> fresh(ids) && alloc as int == NeedWords(n) as int - 2)
        && (n > old(alloc) && rc.NoMemory? && NeedWords(n) != 0 ==>
              ids == old(ids) && alloc == old(alloc) && moved == old(moved))
        && (n > old(alloc) && NeedWords(n) == 0 ==> !Valid())
      ensures rc.Success? && NeedFits(old(alloc), old(ids[0]), num) ==>
        Valid() && Contents() == old(Contents()) && old(|Contents()|) + num as int <= alloc
      ensures var total := old(|Contents()|) + num as int;
        total > old(alloc) as int && rc.Success? && NeedFits(old(alloc), old(ids[0]), num) ==> CapacityFor(total, alloc)
      ensures NeedFits(old(alloc), old(ids[0]), num) ==>
        && Valid() && State() == AfterCall(old(State()), Call(RoomFor(num), granted))
        && (rc.Success? <==> Served(old(State()), Call(RoomFor(num), granted)))
    {
      ghost var st, s := State(), ids[..];
      NeedKeepsPromiseIffNoWrap(alloc, s[0], num);
      if NeedFits(alloc, s[0], num) {
        NeedServes(st, num, granted);
      }
      var n := NeedTotal(ids[0], num);
      if n > alloc {
        n := NeedWords(n);
        var ok := Realloc(n, granted);
        if !ok {
          assert n != 0 ==> ids[..] == s;
          return NoMemory;
        }
        alloc := n - 2;
        if NeedFits(st.alloc, s[0], num) { EntriesCarriedOver(s, ids[..]); }
      }
      return Success;
    }

    /** `mdb_midl_xappend`: the caller has made room. */
    method XAppend(id: MdbId)
      requires Valid() && ids[0] < alloc
      modifies ids
      ensures Valid() && Contents() == old(Contents()) + [id]
      ensures State() == AfterCall(old(State()), Call(Push(id), true))
    {
      var xlen := ids[0] + 1;
      ids[0] := xlen;
      ids[xlen] := id;
    }

    /** `mdb_midl_append` */
    method Append(id: MdbId, granted: bool) returns (rc: Rc)
      requires Valid()
      modifies this, ids
      ensures Valid() && (ids == old(ids) || fresh(ids))
      ensures var full := old(|Contents()| == alloc as int);
        && (rc.Success? <==> !full || (granted && old(alloc) as int + 131071 + 2 <= MAX_WORDS))
        && Contents() == old(Contents()) + (if rc.Success? then [id] else [])
        && alloc as int == old(alloc) as int + if full && rc.Success? then 131071 else 0
      ensures State() == AfterCall(old(State()), Call(One(id), granted))
      ensures rc.Success? <==> Served(old(State()), Call(One(id), granted))
    {
      if ids[0] >= alloc {
        rc := Grow(UM_MAX, granted);
        if rc.NoMemory? { return; }
      }
      ghost var before := Contents();
      ids[0] := ids[0] + 1;
      ids[ids[0]] := id;
      assert Contents() == before + [id];
      return Success;
    }

    /** `mdb_midl_append_list`. A list may be appended to itself as long as it need not grow. */
    method AppendList(app: array<MdbId>, granted: bool) returns (rc: Rc)
      requires Valid() && IsList(app[..]) && app[0] < INT_LIMIT
      requires app == ids ==> 2 * ids[0] as int < alloc as int
      modifies this, ids
      ensures Valid() && (ids == old(ids) || fresh(ids))
      ensures var more := old(app[0]) as int;
        var grows := old(|Contents()|) + more >= old(alloc) as int;
        && (rc.Success? <==> !grows || (granted && old(alloc) as int + more + 2 <= MAX_WORDS))
        && Contents() == old(Contents()) + (if rc.Success? then old(app[1..app[0] + 1]) else [])
        && alloc as int == old(alloc) as int + if grows && rc.Success? then more else 0
      ensures State() == AfterCall(old(State()), Call(Many(Entries(old(app[..]))), granted))
      ensures rc.Success? <==> Served(old(State()), Call(Many(Entries(old(app[..]))), granted))
    {
      ghost var tail := Entries(app[..]);
      if ids[0] as int + app[0] as int >= alloc {
        rc := Grow(app[0], granted);
        if rc.NoMemory? { return; }
      }
      CopyBehind(app, tail);
      return Success;
    }

    /** The block copy and the new count. */
    method CopyBehind(app: array<MdbId>, ghost tail: seq<MdbId>)
      requires Valid() && IsList(app[..]) && tail == Entries(app[..])
      requires ids[0] as int + |tail| <= alloc as int
      modifies ids
      ensures Valid() && Contents() == old(Contents()) + tail
    {
      ghost var before := ids[..];
      var n, more := ids[0], app[0];
      forall k | 0 <= k < more {
        ids[n as int + 1 + k] := app[1 + k];
      }
      ids[0] := n as int + more as int;
      EntriesOfExtended(before, ids[..], n, tail);
    }

    /** `mdb_midl_append_range`: appends `id + n - 1` down to `id`. */
    method AppendRange(id: MdbId, n: CUInt, granted: bool) returns (rc: Rc)
      requires Valid() && n < INT_LIMIT && id as int + n as int <= SIZE_LIMIT
      modifies this, ids
      ensures Valid() && (ids == old(ids) || fresh(ids))
      ensures var slots := n as int - n as int % 131072 + 131071;
        var grows := old(|Contents()|) + n as int > old(alloc) as int;
        && (rc.Success? <==> !grows || (granted && old(alloc) as int + slots + 2 <= MAX_WORDS))
        && alloc as int == old(alloc) as int + if grows && rc.Success? then slots else 0
      ensures rc.NoMemory? ==> Contents() == old(Contents())
      ensures rc.Success? ==> |Contents()| == old(|Contents()|) + n as int && old(Contents()) <= Contents()
      ensures rc.Success? ==>
        forall p {:trigger Contents()[p]} :: old(|Contents()|) <= p < |Contents()| ==>
          Contents()[p] as int == id as int + n as int - 1 - (p - old(|Contents()|))
      ensures State() == AfterCall(old(State()), Call(Range(id, n), granted))
      ensures rc.Success? <==> Served(old(State()), Call(Range(id, n), granted))
    {
      var len := ids[0];
      OrUmMaxBounds(n);
      if len as int + n as int > alloc {
        rc := Grow(OrUmMax(n), granted);
        if rc.NoMemory? { return; }
      }
      FillBehind(len, id, n);
      return Success;
    }

    /** The new count and the range behind the old entries. */
    method FillBehind(len: MdbId, id: MdbId, n: CUInt)
      requires Valid() && len == ids[0] && len as int + n as int <= alloc as int
      requires id as int + n as int <= SIZE_LIMIT
      modifies ids
      ensures Valid() && Contents() == old(Contents()) + DescendingRange(id, n)
    {
      ghost var before := ids[..];
      ids[0] := len as int + n as int;
      FillRange(ids, len, id, n);
      EntriesOfExtended(before, ids[..], len, DescendingRange(id, n));
    }

    /** Fills the `n` places behind the list from the last one down, with rising IDs. */
    static method FillRange(p: array<MdbId>, len: MdbId, id: MdbId, n: CUInt)
      requires len as int + n as int < p.Length && id as int + n as int <= SIZE_LIMIT
      modifies p
      ensures forall k {:trigger p[k]} :: 0 <= k <= len as int ==> p[k] == old(p[k])
      ensures forall k {:trigger DescendingRange(id, n)[k]} :: 0 <= k < n as int
                ==> p[len as int + 1 + k] == DescendingRange(id, n)[k]
    {
      var next: int := id;
      var left: CUInt := n;
      while left > 0
        invariant 0 <= left <= n && next == id as int + n as int - left as int
        invariant forall k {:trigger p[k]} :: 0 <= k <= len as int + left as int ==> p[k] == old(p[k])
        invariant forall k {:trigger p[k]} :: len as int + left as int < k <= len as int + n as int
                    ==> p[k] as int == id as int + len as int + n as int - k
      {
        p[len as int + left as int] := next;
        left := left - 1;
        next := next + 1;
      }
    }

    /** `mdb_midl_sort` on the list. */
    method SortList()
      requires Valid() && ids[0] <= MAX_SORTABLE
      modifies ids
      ensures Valid() && Descending(Contents())
      ensures multiset(Contents()) == old(multiset(Contents()))
    {
      ghost var s := ids[..];
      Sort(ids);
      SegPermMultiset(s, ids[..], 1, s[0] as int + 1);
    }
  }

  /** Ranges appended in falling order keep a list searchable without sorting it. */
  lemma RangeExtendsDescending(s: seq<MdbId>, id: MdbId, n: nat)
    requires Descending(s) && id as int + n <= SIZE_LIMIT
    requires forall k :: 0 <= k < |s| ==> s[k] as int >= id as int + n - 1
    ensures Descending(s + DescendingRange(id, n))
  {
  }
}
