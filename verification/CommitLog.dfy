/** What the log of a section shows: every event in it was granted by the engine, and so was the commit
    behind every hundredth put; and the flags of the puts, by bit number (`main` of mdb_load.c). */
module CommitLog {
  import opened Encoding
  import opened LineReader
  import opened Header
  import opened Load
  import Dump

  /** Behind `start` events the log opens the database, and the engine has accepted every put that follows,
      in the state that the log had then. */
  ghost predicate PutsGranted(e: Engine, g: Globals, start: nat, log: seq<Event>) {
    && start < |log| && log[start] == Open(g.subname, g.flags) && e.open(log[..start], g.subname, g.flags)
    && forall p {:trigger log[p]} :: start < p < |log| ==>
         log[p].Put? && e.put(log[..p], log[p].key, log[p].data, log[p].flags) == PutOk
  }

  /** The first hundred puts have been committed, and the first two hundred, and so on up to `n` hundred. */
  ghost predicate HundredsCommitted(e: Engine, start: nat, log: seq<Event>, n: nat)
    requires start + 1 + 100 * n <= |log|
  {
    forall k {:trigger 100 * k} :: 1 <= k <= n ==> e.commit(log[..start + 1 + 100 * k])
  }

  /** A batch with `n` hundred puts committed. */
  ghost predicate InLog(e: Engine, g: Globals, log0: seq<Event>, b: Batch, n: nat) {
    var start, log := |log0|, b.committed + b.pending;
    && PutsGranted(e, g, start, log) && b.batch < 100 && |log| == start + 1 + 100 * n + b.batch
    && HundredsCommitted(e, start, log, n)
    && b.committed == if n == 0 then log0 else log[..start + 1 + 100 * n]
  }

  lemma OneMoreGranted(e: Engine, g: Globals, start: nat, log: seq<Event>, put: Event, n: nat)
    requires PutsGranted(e, g, start, log) && start + 1 + 100 * n <= |log| && HundredsCommitted(e, start, log, n)
    requires put.Put? && e.put(log, put.key, put.data, put.flags) == PutOk
    ensures PutsGranted(e, g, start, log + [put]) && HundredsCommitted(e, start, log + [put], n)
  {
    var log' := log + [put];
    assert log'[..|log|] == log && log'[..start] == log[..start];
    forall p {:trigger log'[p]} | start < p < |log'|
      ensures log'[p].Put? && e.put(log'[..p], log'[p].key, log'[p].data, log'[p].flags) == PutOk
    {
      if p < |log| { assert log'[..p] == log[..p] && log'[p] == log[p]; }
    }
    forall k {:trigger 100 * k} | 1 <= k <= n ensures e.commit(log'[..start + 1 + 100 * k]) {
      assert log'[..start + 1 + 100 * k] == log[..start + 1 + 100 * k];
    }
  }

  lemma OneMoreHundred(e: Engine, start: nat, log: seq<Event>, n: nat)
    requires |log| == start + 1 + 100 * (n + 1) && HundredsCommitted(e, start, log, n) && e.commit(log)
    ensures HundredsCommitted(e, start, log, n + 1)
  {
    forall k {:trigger 100 * k} | 1 <= k <= n + 1 ensures e.commit(log[..start + 1 + 100 * k]) {
      if k == n + 1 { assert log[..|log|] == log; }
    }
  }

  /** An accepted put goes to the batch, or fills it and is committed with it. */
  lemma AcceptedInLog(e: Engine, g: Globals, log0: seq<Event>, b: Batch, put: Event, n: nat, b': Batch)
    requires InLog(e, g, log0, b, n) && put.Put?
    requires e.put(b.committed + b.pending, put.key, put.data, put.flags) == PutOk
    requires b'.committed + b'.pending == b.committed + b.pending + [put]
    requires if b.batch < 99 then b'.committed == b.committed && b'.batch == b.batch + 1
             else b'.pending == [] && b'.batch == 0 && e.commit(b'.committed)
    ensures InLog(e, g, log0, b', if b.batch < 99 then n else n + 1)
  {
    var log := b.committed + b.pending;
    var log' := log + [put];
    OneMoreGranted(e, g, |log0|, log, put, n);
    if b.batch < 99 {
      if n > 0 { assert log'[..|log0| + 1 + 100 * n] == log[..|log0| + 1 + 100 * n]; }
    } else {
      assert b'.committed + [] == b'.committed && log'[..|log'|] == log';
      OneMoreHundred(e, |log0|, log', n);
    }
  }

  lemma PutOneInLog(e: Engine, opts: Options, g: Globals, log0: seq<Event>, b: Batch, r: Dump.Record, n: nat)
    requires InLog(e, g, log0, b, n)
    ensures match PutOne(e, opts, g.flags, b, r)
            case Go(b') => InLog(e, g, log0, b', n) || InLog(e, g, log0, b', n + 1)
            case Stop(log) => log == b.committed
  {
    var log := b.committed + b.pending;
    var put := Put(r.key, r.data, FullFlags(opts, g.flags, b.prevk, r.key));
    var s := PutOne(e, opts, g.flags, b, r);
    if s.Go? && e.put(log, put.key, put.data, put.flags) == PutOk {
      assert b.committed + (b.pending + [put]) == log + [put];
      assert log + [put] + [] == log + [put];
      AcceptedInLog(e, g, log0, b, put, n, s.b);
    }
  }

  /** What a section may leave: on success a log that has been committed; on failure the old one, or some
      hundreds of puts, the last of them committed. */
  ghost predicate WasGranted(e: Engine, g: Globals, log0: seq<Event>, r: SectionResult) {
    match r
    case SectionDone(log, _, _, _, _) =>
      && PutsGranted(e, g, |log0|, log) && e.commit(log)
      && forall n {:trigger 100 * n} :: n >= 1 && |log0| + 1 + 100 * n <= |log| ==>
           e.commit(log[..|log0| + 1 + 100 * n])
    case SectionFailed(log) =>
      log == log0 ||
        (exists n: nat {:trigger 100 * n} :: n >= 1 && |log| == |log0| + 1 + 100 * n
           && PutsGranted(e, g, |log0|, log) && HundredsCommitted(e, |log0|, log, n))
  }

  /** The committed part of a batch is a log that a failing section may leave. */
  lemma CommittedPart(e: Engine, g: Globals, log0: seq<Event>, b: Batch, n: nat)
    requires InLog(e, g, log0, b, n)
    ensures WasGranted(e, g, log0, SectionFailed(b.committed))
  {
    if n > 0 {
      var start, log := |log0|, b.committed + b.pending;
      var part := log[..start + 1 + 100 * n];
      assert part[..start] == log[..start];
      forall p {:trigger part[p]} | start < p < |part|
        ensures part[p].Put? && e.put(part[..p], part[p].key, part[p].data, part[p].flags) == PutOk
      {
        assert part[..p] == log[..p] && part[p] == log[p];
      }
      forall k {:trigger 100 * k} | 1 <= k <= n ensures e.commit(part[..start + 1 + 100 * k]) {
        assert part[..start + 1 + 100 * k] == log[..start + 1 + 100 * k];
      }
      assert |part| == start + 1 + 100 * n;
    }
  }

  lemma {:induction false} SectionFromInLog(e: Engine, opts: Options, g: Globals, log0: seq<Event>, b: Batch, n: nat,
                                            rest: Bytes, ksize: nat, dsize: nat)
    requires ksize >= 2 && dsize >= 2 && InLog(e, g, log0, b, n)
    ensures WasGranted(e, g, log0, SectionFrom(e, opts, g, b, rest, ksize, dsize))
    decreases |rest|
  {
    var p := ReadBoth(rest, ksize, dsize, g.asText, opts.nohdr);
    CommittedPart(e, g, log0, b, n);
    if p.Both? {
      PutOneInLog(e, opts, g, log0, b, p.r, n);
      var s := PutOne(e, opts, g.flags, b, p.r);
      if s.Go? {
        var n' := if InLog(e, g, log0, s.b, n) then n else n + 1;
        SectionFromInLog(e, opts, g, log0, s.b, n', p.rest, p.ksize, p.dsize);
      }
    }
  }

  /** For every input, every engine and all options, the log of a section shows only what was granted. */
  lemma SectionWasGranted(e: Engine, opts: Options, g: Globals, log0: seq<Event>, rest: Bytes, ksize: nat, dsize: nat)
    requires ksize >= 2 && dsize >= 2
    ensures WasGranted(e, g, log0, Section(e, opts, g, log0, rest, ksize, dsize))
  {
    if e.open(log0, g.subname, g.flags) {
      var b := Batch(log0, [Open(g.subname, g.flags)], [], 0);
      assert (log0 + b.pending)[..|log0|] == log0;
      SectionFromInLog(e, opts, g, log0, b, 0, rest, ksize, dsize);
    }
  }

  // ---------------------------------------------------------------- the flags of every put

  /** The bits of a put to a database with the flags `db`: `MDB_NOOVERWRITE` (4) and `MDB_NODUPDATA` (5)
      exactly with `-N`, `MDB_APPEND` (17) or `MDB_CURRENT` (6) with `MDB_APPENDDUP` (18) exactly with
      `-a`, the latter only in a database with duplicates; no others. */
  ghost predicate BitsOfPut(opts: Options, db: Flags, f: Flags) {
    && (4 in f <==> opts.noOverwrite) && (5 in f <==> opts.noOverwrite)
    && (17 in f <==> opts.append && 18 !in f) && (6 in f <==> 18 in f)
    && (18 in f ==> opts.append && 2 in db)
    && f <= {4, 5, 6, 17, 18}
  }

  ghost predicate BitsOfPuts(opts: Options, db: Flags, log: seq<Event>, start: nat) {
    start <= |log| && forall p :: start <= p < |log| && log[p].Put? ==> BitsOfPut(opts, db, log[p].flags)
  }

  lemma FlagsHaveBits(opts: Options, flags: Flags, prevk: Bytes, key: Bytes)
    ensures BitsOfPut(opts, flags, FullFlags(opts, flags, prevk, key))
  {
  }

  lemma {:induction false} PutsHaveBits(e: Engine, opts: Options, g: Globals, b: Batch,
                                        rest: Bytes, ksize: nat, dsize: nat, start: nat)
    requires ksize >= 2 && dsize >= 2
    requires BitsOfPuts(opts, g.flags, b.committed, start) && BitsOfPuts(opts, g.flags, b.pending, 0)
    ensures BitsOfPuts(opts, g.flags, SectionFrom(e, opts, g, b, rest, ksize, dsize).log, start)
    decreases |rest|
  {
    var p := ReadBoth(rest, ksize, dsize, g.asText, opts.nohdr);
    BitsOfBoth(opts, g.flags, b.committed, b.pending, start);
    if p.Both? {
      var f := FullFlags(opts, g.flags, b.prevk, p.r.key);
      FlagsHaveBits(opts, g.flags, b.prevk, p.r.key);
      BitsOfBoth(opts, g.flags, b.committed, b.pending + [Put(p.r.key, p.r.data, f)], start);
      var s := PutOne(e, opts, g.flags, b, p.r);
      if s.Go? { PutsHaveBits(e, opts, g, s.b, p.rest, p.ksize, p.dsize, start); }
    }
  }

  lemma BitsOfBoth(opts: Options, db: Flags, a: seq<Event>, b: seq<Event>, start: nat)
    requires BitsOfPuts(opts, db, a, start) && BitsOfPuts(opts, db, b, 0)
    ensures BitsOfPuts(opts, db, a + b, start)
  {
  }

  /** Every put that a section commits has the bits of its options, for every input and engine. */
  lemma CommittedPutsHaveBits(e: Engine, opts: Options, g: Globals, log0: seq<Event>, rest: Bytes,
                              ksize: nat, dsize: nat)
    requires ksize >= 2 && dsize >= 2
    ensures BitsOfPuts(opts, g.flags, Section(e, opts, g, log0, rest, ksize, dsize).log, |log0|)
  {
    if e.open(log0, g.subname, g.flags) {
      PutsHaveBits(e, opts, g, Batch(log0, [Open(g.subname, g.flags)], [], 0), rest, ksize, dsize, |log0|);
    }
  }
}
