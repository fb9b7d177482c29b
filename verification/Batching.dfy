/** What batching guarantees: whatever the input and however the engine answers, a section commits
    the records the engine accepts, in order, and whole batches of them when it fails (mdb_load.c). */
module Batching {
  import opened Encoding
  import opened LineReader
  import opened Header
  import opened Load
  import Dump

  // ---------------------------------------------------------------- the records of a section

  /** How the record lines of a section stop. */
  datatype Ending = AtDataEnd | AtInputEnd | DataMissing

  datatype Records = Records(records: seq<Dump.Record>, ending: Ending, rest: Bytes, ksize: nat, dsize: nat)

  /** The records of a section, independently of what the engine does with them. */
  ghost function ReadAll(rest: Bytes, ksize: nat, dsize: nat, asText: bool, nohdr: bool): (all: Records)
    requires ksize >= 2 && dsize >= 2
    ensures all.ending == AtDataEnd ==> |all.rest| < |rest| && all.ksize >= ksize && all.dsize >= dsize
    decreases |rest|
  {
    match ReadBoth(rest, ksize, dsize, asText, nohdr)
    case NoMore(eof, rest') => Records([], if eof then AtInputEnd else AtDataEnd, rest', ksize, dsize)
    case KeyOnly => Records([], DataMissing, [], ksize, dsize)
    case Both(r, rest', ksize', dsize') =>
      var more := ReadAll(rest', ksize', dsize', asText, nohdr);
      more.(records := [r] + more.records)
  }

  /** The put loop over given records. */
  datatype Puts = AllPut(b: Batch) | Broke(log: seq<Event>)

  ghost function PutAll(e: Engine, opts: Options, flags: Flags, b: Batch, rs: seq<Dump.Record>): Puts
    decreases |rs|
  {
    if rs == [] then AllPut(b)
    else match PutOne(e, opts, flags, b, rs[0])
      case Stop(log) => Broke(log)
      case Go(b') => PutAll(e, opts, flags, b', rs[1..])
  }

  /** What becomes of a section once its records have been put. */
  ghost function AfterPuts(e: Engine, ps: Puts, all: Records): SectionResult {
    match ps
    case Broke(log) => SectionFailed(log)
    case AllPut(b) =>
      if all.ending == DataMissing then SectionFailed(b.committed)
      else Finish(e, b, all.ending == AtInputEnd, all.rest, all.ksize, all.dsize)
  }

  lemma ReadAllStep(rest: Bytes, ksize: nat, dsize: nat, asText: bool, nohdr: bool, p: Pair)
    requires ksize >= 2 && dsize >= 2 && p == ReadBoth(rest, ksize, dsize, asText, nohdr) && p.Both?
    ensures var more := ReadAll(p.rest, p.ksize, p.dsize, asText, nohdr);
      ReadAll(rest, ksize, dsize, asText, nohdr) == more.(records := [p.r] + more.records)
  {
  }

  /** Reading and putting, interleaved in the program, can be looked at one after the other. */
  lemma {:induction false} SectionReadsThenPuts(e: Engine, opts: Options, g: Globals, b: Batch,
                                                rest: Bytes, ksize: nat, dsize: nat)
    requires ksize >= 2 && dsize >= 2
    ensures var all := ReadAll(rest, ksize, dsize, g.asText, opts.nohdr);
      SectionFrom(e, opts, g, b, rest, ksize, dsize) == AfterPuts(e, PutAll(e, opts, g.flags, b, all.records), all)
    decreases |rest|
  {
    var p := ReadBoth(rest, ksize, dsize, g.asText, opts.nohdr);
    if p.Both? {
      var more := ReadAll(p.rest, p.ksize, p.dsize, g.asText, opts.nohdr);
      PutAllStep(e, opts, g.flags, b, p.r, more);
      var s := PutOne(e, opts, g.flags, b, p.r);
      if s.Go? { SectionReadsThenPuts(e, opts, g, s.b, p.rest, p.ksize, p.dsize); }
    }
  }

  lemma PutAllStep(e: Engine, opts: Options, flags: Flags, b: Batch, r: Dump.Record, more: Records)
    ensures var all, s := more.(records := [r] + more.records), PutOne(e, opts, flags, b, r);
      AfterPuts(e, PutAll(e, opts, flags, b, all.records), all)
      == if s.Go? then AfterPuts(e, PutAll(e, opts, flags, s.b, more.records), more) else SectionFailed(s.committed)
  {
    assert ([r] + more.records)[1..] == more.records;
  }

  // ---------------------------------------------------------------- the puts of a section

  /** The key of the record before record `i`; the empty key before the first one. */
  ghost function KeyBefore(rs: seq<Dump.Record>, i: nat): Bytes
    requires i <= |rs|
  {
    if i == 0 then [] else rs[i - 1].key
  }

  /** The put of record `i`: its flags depend on the record before it, not on the batches. */
  ghost function PutOf(opts: Options, flags: Flags, rs: seq<Dump.Record>, i: nat): Event
    requires i < |rs|
  {
    Put(rs[i].key, rs[i].data, FullFlags(opts, flags, KeyBefore(rs, i), rs[i].key))
  }

  ghost function PutsOf(opts: Options, flags: Flags, rs: seq<Dump.Record>): seq<Event> {
    seq(|rs|, i requires 0 <= i < |rs| => PutOf(opts, flags, rs, i))
  }

  /** The events of a section all of whose records are stored. */
  ghost function SectionEvents(opts: Options, g: Globals, rs: seq<Dump.Record>): seq<Event> {
    [Open(g.subname, g.flags)] + PutsOf(opts, g.flags, rs)
  }

  /** How many of `k` puts make up whole batches. */
  function WholeOf(k: nat): (w: nat)
    ensures w <= k < w + 100 && w % 100 == 0
  {
    k - k % BATCH
  }

  lemma NextWhole(k: nat)
    ensures WholeOf(k + 1) == if k + 1 - WholeOf(k) < BATCH then WholeOf(k) else k + 1
    ensures (k + 1) % 100 == 0 <==> k + 1 - WholeOf(k) == BATCH
  {
  }

  /** The log with the first `k` of the accepted puts committed. Opening the database, the last event
      of `start`, commits with the first of them. */
  ghost function FirstPuts(log0: seq<Event>, start: seq<Event>, acc: seq<Event>, k: nat): seq<Event>
    requires k <= |acc|
  {
    if k == 0 then log0 else start + acc[..k]
  }

  /** What the engine has accepted is committed or pending, and exactly the whole batches are
      committed. */
  ghost predicate Batched(b: Batch, log0: seq<Event>, start: seq<Event>, acc: seq<Event>) {
    && b.batch == |acc| - WholeOf(|acc|)
    && b.committed + b.pending == start + acc
    && b.committed == FirstPuts(log0, start, acc, WholeOf(|acc|))
  }

  /** One more accepted put stays pending, or completes the batch. */
  lemma OneMorePut(b: Batch, b': Batch, log0: seq<Event>, start: seq<Event>, acc: seq<Event>, put: Event)
    requires Batched(b, log0, start, acc)
    requires if b.batch + 1 < BATCH
             then b'.committed == b.committed && b'.pending == b.pending + [put] && b'.batch == b.batch + 1
             else b'.committed == b.committed + (b.pending + [put]) && b'.pending == [] && b'.batch == 0
    ensures Batched(b', log0, start, acc + [put])
  {
    var acc' := acc + [put];
    LogGrows(b.committed, b.pending, start, acc, put);
    NextWhole(|acc|);
    if b.batch + 1 < BATCH {
      assert acc'[..WholeOf(|acc|)] == acc[..WholeOf(|acc|)];
    } else {
      assert acc'[..|acc'|] == acc';
      assert b'.committed + [] == b'.committed;
    }
  }

  lemma LogGrows(committed: seq<Event>, pending: seq<Event>, before: seq<Event>, acc: seq<Event>, put: Event)
    requires committed + pending == before + acc
    ensures committed + (pending + [put]) == before + (acc + [put])
  {
    assert committed + (pending + [put]) == committed + pending + [put];
    assert before + (acc + [put]) == before + acc + [put];
  }

  /** A section to be loaded: the options, the header's globals, the log it starts from and its
      records. */
  datatype Job = Job(e: Engine, opts: Options, g: Globals, log0: seq<Event>, rs: seq<Dump.Record>) {
    ghost function Opened(): seq<Event> {
      log0 + [Open(g.subname, g.flags)]
    }

    ghost function PutAt(i: nat): Event
      requires i < |rs|
    {
      PutOf(opts, g.flags, rs, i)
    }

    /** The engine's answer to record `i`, when the accepted ones among those before it are stored. */
    ghost function Answer(i: nat): PutRc
      requires i < |rs|
      decreases i, 1
    {
      e.put(Opened() + Accepted(i), rs[i].key, rs[i].data, PutAt(i).flags)
    }

    /** The puts the engine accepts among those of the first `n` records. */
    ghost function Accepted(n: nat): seq<Event>
      requires n <= |rs|
      decreases n, 0
    {
      if n == 0 then []
      else Accepted(n - 1) + if Answer(n - 1) == PutOk then [PutAt(n - 1)] else []
    }

    /** Record `i` does not stop the section: it is stored, or with `-N` it is there already. */
    ghost predicate Passes(i: nat)
      requires i < |rs|
    {
      Answer(i) == PutOk || (Answer(i) == KeyExist && opts.noOverwrite)
    }

    /** Record `i` passes, and if it is the 100th, 200th, ... one accepted, the commit succeeds. */
    ghost predicate Through(i: nat)
      requires i < |rs|
    {
      Passes(i) && (Answer(i) == PutOk && |Accepted(i + 1)| % 100 == 0 ==> e.commit(Opened() + Accepted(i + 1)))
    }

    ghost predicate AllThrough(n: nat)
      requires n <= |rs|
    {
      forall i :: 0 <= i < n ==> Through(i)
    }

    /** The log of the complete section. */
    ghost function Complete(): seq<Event> {
      Opened() + Accepted(|rs|)
    }

    /** The database is opened, every record gets through, and the last commit succeeds. */
    ghost predicate Succeeds() {
      e.open(log0, g.subname, g.flags) && AllThrough(|rs|) && e.commit(Complete())
    }

    /** What is committed when the first `n` records have got through: whole batches of the accepted ones. */
    ghost function Kept(n: nat): seq<Event>
      requires n <= |rs|
    {
      FirstPuts(log0, Opened(), Accepted(n), WholeOf(|Accepted(n)|))
    }

    /** A log that a failed section may leave. */
    ghost predicate WholeBatches(log: seq<Event>) {
      exists n: nat :: n <= |rs| && AllThrough(n) && log == Kept(n)
    }

    /** Why a section failed, and what it has kept: the database could not be opened; or the first record
        that does not get through, behind `n` others, stopped it; or with all records through, a data
        line is missing or the last commit failed. */
    ghost predicate Stops(missing: bool, log: seq<Event>) {
      if !e.open(log0, g.subname, g.flags) then log == log0
      else exists n: nat :: n <= |rs| && AllThrough(n) && log == Kept(n)
             && if n < |rs| then !Through(n) else missing || !e.commit(Complete())
    }
  }

  // ---------------------------------------------------------------- what is asked of the engine

  /** Behind an accepted append, the last key of the database is the appended one. */
  ghost predicate LastIsAppended(e: Engine) {
    forall log, k, d, f :: e.put(log, k, d, f) == PutOk && (17 in f || 18 in f)
                       ==> e.last(log + [Put(k, d, f)]) == k
  }

  /** Only appending to a database with duplicates relies on what is read back. */
  ghost predicate Reliable(e: Engine, opts: Options, flags: Flags) {
    opts.append && DUPSORT in flags ==> LastIsAppended(e)
  }

  // ---------------------------------------------------------------- the invariant of the put loop

  /** After the first `n` records: all of them have got through, what was accepted is in its batches,
      and the previous key is that of the record before. */
  ghost predicate InBatch(j: Job, n: nat, b: Batch) {
    && n <= |j.rs| && j.AllThrough(n)
    && Batched(b, j.log0, j.Opened(), j.Accepted(n))
    && (j.opts.append && DUPSORT in j.g.flags ==> b.prevk == KeyBefore(j.rs, n))
  }

  lemma StartsInBatch(j: Job)
    ensures InBatch(j, 0, Batch(j.log0, [Open(j.g.subname, j.g.flags)], [], 0))
  {
  }

  /** The put the program makes is the put of the record: the previous key is that of the record
      before, also behind a batch boundary. */
  lemma SamePut(j: Job, n: nat, b: Batch)
    requires InBatch(j, n, b) && n < |j.rs|
    ensures Put(j.rs[n].key, j.rs[n].data, FullFlags(j.opts, j.g.flags, b.prevk, j.rs[n].key)) == j.PutAt(n)
    ensures j.e.put(b.committed + b.pending, j.rs[n].key, j.rs[n].data, j.PutAt(n).flags) == j.Answer(n)
  {
  }

  /** What is read back behind a batch boundary is the key just put. */
  lemma ReadBack(j: Job, n: nat, b: Batch)
    requires InBatch(j, n, b) && n < |j.rs| && j.Answer(n) == PutOk
    requires Reliable(j.e, j.opts, j.g.flags)
    ensures j.opts.append && DUPSORT in j.g.flags
        ==> j.e.last(b.committed + (b.pending + [j.PutAt(n)])) == j.rs[n].key
  {
    var put := j.PutAt(n);
    SamePut(j, n, b);
    assert b.committed + (b.pending + [put]) == b.committed + b.pending + [put];
    if j.opts.append { assert 17 in put.flags || 18 in put.flags; }
  }

  lemma PutOneKeepsBatch(j: Job, n: nat, b: Batch)
    requires InBatch(j, n, b) && n < |j.rs| && Reliable(j.e, j.opts, j.g.flags)
    ensures match PutOne(j.e, j.opts, j.g.flags, b, j.rs[n])
            case Go(b') => InBatch(j, n + 1, b')
            case Stop(log) => !j.Through(n) && log == j.Kept(n)
  {
    SamePut(j, n, b);
    var s := PutOne(j.e, j.opts, j.g.flags, b, j.rs[n]);
    if j.Answer(n) == PutOk {
      CommitAtBoundary(j, n, b);
      if s.Go? {
        ReadBack(j, n, b);
        OneMorePut(b, s.b, j.log0, j.Opened(), j.Accepted(n), j.PutAt(n));
      }
    } else {
      assert j.Accepted(n + 1) == j.Accepted(n);
    }
  }

  /** The 100th, 200th, ... accepted put is the one that fills a batch, and what is then to be committed
      is everything accepted so far. */
  lemma CommitAtBoundary(j: Job, n: nat, b: Batch)
    requires InBatch(j, n, b) && n < |j.rs| && j.Answer(n) == PutOk
    ensures j.Accepted(n + 1) == j.Accepted(n) + [j.PutAt(n)]
    ensures b.batch + 1 >= BATCH <==> |j.Accepted(n + 1)| % 100 == 0
    ensures b.committed + (b.pending + [j.PutAt(n)]) == j.Opened() + j.Accepted(n + 1)
  {
    NextWhole(|j.Accepted(n)|);
    LogGrows(b.committed, b.pending, j.Opened(), j.Accepted(n), j.PutAt(n));
  }

  /** The put loop from record `n` on goes to the end, or stops at the first record `m` that does not
      get through. */
  lemma {:induction false} PutsKeepBatch(j: Job, n: nat, b: Batch) returns (m: nat)
    requires InBatch(j, n, b) && Reliable(j.e, j.opts, j.g.flags)
    ensures match PutAll(j.e, j.opts, j.g.flags, b, j.rs[n..])
            case AllPut(b') => InBatch(j, |j.rs|, b')
            case Broke(log) => m < |j.rs| && j.AllThrough(m) && !j.Through(m) && log == j.Kept(m)
    decreases |j.rs| - n
  {
    m := n;
    if n < |j.rs| {
      assert j.rs[n..][1..] == j.rs[n + 1..];
      PutOneKeepsBatch(j, n, b);
      var s := PutOne(j.e, j.opts, j.g.flags, b, j.rs[n]);
      if s.Go? { m := PutsKeepBatch(j, n + 1, s.b); }
    }
  }

  // ---------------------------------------------------------------- main results

  /** What a section leaves: all its records read and all that the engine accepts of them committed; or,
      when it fails for one of the four reasons, whole batches of what was accepted so far. */
  ghost predicate BatchSafe(j: Job, all: Records, r: SectionResult) {
    match r
    case SectionDone(log, eof, rest, ksize, dsize) =>
      && log == j.Complete() && j.Succeeds()
      && all == Records(j.rs, if eof then AtInputEnd else AtDataEnd, rest, ksize, dsize)
    case SectionFailed(log) => j.Stops(all.ending == DataMissing, log)
  }

  /** For every input, every engine and all options: a section that ends well has committed exactly the
      accepted records, in order; one that fails has a cause, and has kept nothing, or its opening and
      the first `100 * k` accepted records before the cause. */
  lemma SectionIsBatchSafe(e: Engine, opts: Options, g: Globals, log0: seq<Event>,
                           rest: Bytes, ksize: nat, dsize: nat)
    requires ksize >= 2 && dsize >= 2 && Reliable(e, opts, g.flags)
    ensures var all := ReadAll(rest, ksize, dsize, g.asText, opts.nohdr);
      BatchSafe(Job(e, opts, g, log0, all.records), all, Section(e, opts, g, log0, rest, ksize, dsize))
  {
    var all := ReadAll(rest, ksize, dsize, g.asText, opts.nohdr);
    var j := Job(e, opts, g, log0, all.records);
    var b := Batch(log0, [Open(g.subname, g.flags)], [], 0);
    StartsInBatch(j);
    if e.open(log0, g.subname, g.flags) {
      SectionReadsThenPuts(e, opts, g, b, rest, ksize, dsize);
      PutsThenCommit(j, b, all);
    }
  }

  lemma PutsThenCommit(j: Job, b: Batch, all: Records)
    requires InBatch(j, 0, b) && Reliable(j.e, j.opts, j.g.flags) && all.records == j.rs
    requires j.e.open(j.log0, j.g.subname, j.g.flags)
    ensures BatchSafe(j, all, AfterPuts(j.e, PutAll(j.e, j.opts, j.g.flags, b, j.rs), all))
  {
    var m := PutsKeepBatch(j, 0, b);
    assert j.rs[0..] == j.rs;
  }

  /** Whatever the reason, a failed section leaves whole batches. */
  lemma StoppedIsWholeBatches(j: Job, missing: bool, log: seq<Event>)
    requires j.Stops(missing, log)
    ensures j.WholeBatches(log)
  {
    if !j.e.open(j.log0, j.g.subname, j.g.flags) { assert j.Kept(0) == j.log0; }
  }

  // ---------------------------------------------------------------- append flags

  /** Each accepted put is that of one record, with `p` accepted ones before it. */
  lemma {:induction false} AcceptedRecord(j: Job, n: nat, p: nat) returns (i: nat)
    requires n <= |j.rs| && p < |j.Accepted(n)|
    ensures i < n && j.Answer(i) == PutOk && |j.Accepted(i)| == p
    ensures j.Accepted(n)[p] == j.PutAt(i)
  {
    if p < |j.Accepted(n - 1)| { i := AcceptedRecord(j, n - 1, p); } else { i := n - 1; }
  }

  lemma AppendFlagsOfRecord(opts: Options, flags: Flags, rs: seq<Dump.Record>, i: nat)
    requires opts.append && DUPSORT in flags && i < |rs| && rs[0].key != []
    ensures PutOf(opts, flags, rs, i) == Put(rs[i].key, rs[i].data, RunFlags(opts, rs, i))
  {
  }

  /** The flags of record `i` in append mode, by bit number: `MDB_APPEND` (17) for the first record of a
      run of equal keys, `MDB_CURRENT` and `MDB_APPENDDUP` (6, 18) for each further one; with `-N`
      `MDB_NOOVERWRITE` and `MDB_NODUPDATA` (4, 5) as well. */
  ghost function RunFlags(opts: Options, rs: seq<Dump.Record>, i: nat): Flags
    requires i < |rs|
  {
    (if opts.noOverwrite then {4, 5} else {}) + if i > 0 && rs[i].key == rs[i - 1].key then {6, 18} else {17}
  }

  /** In append mode on a DUPSORT database the flags of the committed puts, batch after batch, follow
      the runs of equal keys in the input. */
  lemma AppendFlagsFollowRuns(e: Engine, opts: Options, g: Globals, log0: seq<Event>,
                              rest: Bytes, ksize: nat, dsize: nat, p: nat) returns (i: nat)
    requires ksize >= 2 && dsize >= 2 && opts.append && DUPSORT in g.flags && LastIsAppended(e)
    requires |log0| < p < |Section(e, opts, g, log0, rest, ksize, dsize).log|
    ensures var rs := ReadAll(rest, ksize, dsize, g.asText, opts.nohdr).records;
      && i < |rs| && |Job(e, opts, g, log0, rs).Accepted(i)| == p - |log0| - 1
      && (rs[0].key != [] ==>
            Section(e, opts, g, log0, rest, ksize, dsize).log[p]
            == Put(rs[i].key, rs[i].data, RunFlags(opts, rs, i)))
  {
    var all := ReadAll(rest, ksize, dsize, g.asText, opts.nohdr);
    var j := Job(e, opts, g, log0, all.records);
    SectionIsBatchSafe(e, opts, g, log0, rest, ksize, dsize);
    i := PutInLog(j, all, Section(e, opts, g, log0, rest, ksize, dsize), p);
    if j.rs[0].key != [] { AppendFlagsOfRecord(opts, g.flags, j.rs, i); }
  }

  lemma PutInLog(j: Job, all: Records, r: SectionResult, p: nat) returns (i: nat)
    requires BatchSafe(j, all, r) && |j.log0| < p < |r.log|
    ensures i < |j.rs| && |j.Accepted(i)| == p - |j.log0| - 1 && r.log[p] == j.PutAt(i)
  {
    if r.SectionFailed? { StoppedIsWholeBatches(j, all.ending == DataMissing, r.log); }
    var n, k := PutsInLog(j, r.log);
    i := AcceptedRecord(j, n, p - |j.log0| - 1);
  }

  /** A non-empty part of a section that is in the log is its opening and some accepted puts. */
  lemma PutsInLog(j: Job, log: seq<Event>) returns (n: nat, k: nat)
    requires j.WholeBatches(log) || log == j.Complete()
    requires |log| > |j.log0|
    ensures n <= |j.rs| && k <= |j.Accepted(n)| && log == j.Opened() + j.Accepted(n)[..k]
  {
    if log == j.Complete() {
      n, k := |j.rs|, |j.Accepted(|j.rs|)|;
      assert j.Accepted(n)[..k] == j.Accepted(n);
    } else {
      n :| n <= |j.rs| && j.AllThrough(n) && log == j.Kept(n);
      k := WholeOf(|j.Accepted(n)|);
    }
  }

  /** Behind a batch boundary the program relies on the engine: the put that follows is flagged as a
      duplicate exactly when its key is the one read back. */
  lemma BoundaryFlagIsReadBack(e: Engine, opts: Options, flags: Flags, b: Batch, r: Dump.Record, next: Dump.Record)
    requires opts.append && DUPSORT in flags && b.batch + 1 == BATCH
    requires PutOne(e, opts, flags, b, r).Go? && e.put(b.committed + b.pending, r.key, r.data,
               FullFlags(opts, flags, b.prevk, r.key)) == PutOk
    ensures var b' := PutOne(e, opts, flags, b, r).b;
      18 in FullFlags(opts, flags, b'.prevk, next.key) <==> next.key == e.last(b'.committed)
  {
  }

  // ---------------------------------------------------------------- no record skipped

  /** No record is skipped: `-N` is off, or the engine never finds a record already there. */
  ghost predicate NoSkips(e: Engine, opts: Options) {
    opts.noOverwrite ==> forall log, k, d, f :: e.put(log, k, d, f) != KeyExist
  }

  lemma {:induction false} AllAccepted(j: Job, n: nat)
    requires NoSkips(j.e, j.opts) && n <= |j.rs| && j.AllThrough(n)
    ensures j.Accepted(n) == PutsOf(j.opts, j.g.flags, j.rs)[..n]
  {
    if n > 0 {
      AllAccepted(j, n - 1);
      assert j.Through(n - 1);
    }
  }

  /** A log that a failed section may leave: nothing of the section, or its first whole batches. */
  ghost predicate FirstBatches(j: Job, log: seq<Event>) {
    exists n: nat :: n <= |j.rs| && n % 100 == 0
      && log == j.log0 + SectionEvents(j.opts, j.g, j.rs)[..if n == 0 then 0 else n + 1]
  }

  /** When no record is skipped the records stored are a prefix of the input: all of them when the
      section ends well, the first `100 * k` of them when it fails. */
  lemma SectionIsPrefixSafe(e: Engine, opts: Options, g: Globals, log0: seq<Event>,
                            rest: Bytes, ksize: nat, dsize: nat)
    requires ksize >= 2 && dsize >= 2 && NoSkips(e, opts) && Reliable(e, opts, g.flags)
    ensures var all := ReadAll(rest, ksize, dsize, g.asText, opts.nohdr);
      match Section(e, opts, g, log0, rest, ksize, dsize)
      case SectionDone(log, eof, rest', ksize', dsize') =>
        && log == log0 + SectionEvents(opts, g, all.records)
        && all == Records(all.records, if eof then AtInputEnd else AtDataEnd, rest', ksize', dsize')
      case SectionFailed(log) => FirstBatches(Job(e, opts, g, log0, all.records), log)
  {
    var all := ReadAll(rest, ksize, dsize, g.asText, opts.nohdr);
    var j := Job(e, opts, g, log0, all.records);
    SectionIsBatchSafe(e, opts, g, log0, rest, ksize, dsize);
    match Section(e, opts, g, log0, rest, ksize, dsize)
    case SectionDone(_, _, _, _, _) => CompleteIsEvents(j);
    case SectionFailed(log) =>
      StoppedIsWholeBatches(j, all.ending == DataMissing, log);
      BatchesAreFirst(j, log);
  }

  lemma CompleteIsEvents(j: Job)
    requires NoSkips(j.e, j.opts) && j.AllThrough(|j.rs|)
    ensures j.Complete() == j.log0 + SectionEvents(j.opts, j.g, j.rs)
  {
    AllAccepted(j, |j.rs|);
    var puts := PutsOf(j.opts, j.g.flags, j.rs);
    assert puts[..|j.rs|] == puts;
  }

  lemma KeptIsEvents(j: Job, n: nat, k: nat)
    requires NoSkips(j.e, j.opts) && k <= n <= |j.rs| && j.AllThrough(n)
    ensures |j.Accepted(n)| == n
    ensures FirstPuts(j.log0, j.Opened(), j.Accepted(n), k)
         == j.log0 + SectionEvents(j.opts, j.g, j.rs)[..if k == 0 then 0 else k + 1]
  {
    AllAccepted(j, n);
    var puts := PutsOf(j.opts, j.g.flags, j.rs);
    assert puts[..n][..k] == puts[..k];
    if k > 0 { assert SectionEvents(j.opts, j.g, j.rs)[..k + 1] == [Open(j.g.subname, j.g.flags)] + puts[..k]; }
  }

  lemma BatchesAreFirst(j: Job, log: seq<Event>)
    requires NoSkips(j.e, j.opts) && j.WholeBatches(log)
    ensures FirstBatches(j, log)
  {
    var n: nat :| n <= |j.rs| && j.AllThrough(n) && log == j.Kept(n);
    KeptIsEvents(j, n, 0);
    KeptIsEvents(j, n, WholeOf(n));
  }
}
