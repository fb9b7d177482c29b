/** What batching guarantees over a whole input: the complete sections in front of a failure, whole
    batches of the section that fails, and nothing else (`main` of mdb_load.c). */
module InputRun {
  import opened Encoding
  import opened LineReader
  import opened Header
  import opened Load
  import opened Batching
  import Dump

  // ---------------------------------------------------------------- the sections of an input

  /** A section: what its header sets, and its records. */
  datatype Part = Part(g: Globals, records: seq<Dump.Record>)

  /** How an input stops: at its end, in a record without data, or at a header the program refuses. */
  datatype Closing = Closed | NoData | Refused

  datatype Parts = Parts(parts: seq<Part>, closing: Closing)

  ghost function HeaderOf(opts: Options, parse: LineParser, g: Globals, rest: Bytes, dsize: nat): (h: HeaderResult)
    requires dsize >= 2
    ensures h.Parsed? ==> |h.rest| <= |rest|
  {
    HeaderShrinks(rest, dsize, g.(flags := NO_FLAGS), parse);
    if opts.nohdr then HeaderResult.Parsed(rest, g) else ParseHeader(rest, dsize, g.(flags := NO_FLAGS), parse)
  }

  /** The sections of an input, independently of what the engine does with them. */
  ghost function ReadParts(opts: Options, parse: LineParser, g: Globals, rest: Bytes, ksize: nat, dsize: nat): Parts
    requires ksize >= 2 && dsize >= 2
    decreases |rest|
  {
    match HeaderOf(opts, parse, g, rest, dsize)
    case Exited => Parts([], Refused)
    case Parsed(rest1, g1) =>
      var all := ReadAll(rest1, ksize, dsize, g1.asText, opts.nohdr);
      match all.ending
      case DataMissing => Parts([Part(g1, all.records)], NoData)
      case AtInputEnd => Parts([Part(g1, all.records)], Closed)
      case AtDataEnd =>
        var more := ReadParts(opts, parse, g1, all.rest, all.ksize, all.dsize);
        more.(parts := [Part(g1, all.records)] + more.parts)
  }

  // ---------------------------------------------------------------- what a run may leave

  ghost function JobOf(e: Engine, opts: Options, log: seq<Event>, part: Part): Job {
    Job(e, opts, part.g, log, part.records)
  }

  /** The log after all of the sections have been stored. */
  ghost function StoredAll(e: Engine, opts: Options, log: seq<Event>, parts: seq<Part>): seq<Event>
    decreases |parts|
  {
    if parts == [] then log else StoredAll(e, opts, JobOf(e, opts, log, parts[0]).Complete(), parts[1..])
  }

  ghost predicate AllStored(e: Engine, opts: Options, log: seq<Event>, parts: seq<Part>)
    decreases |parts|
  {
    parts == [] ||
      (var j := JobOf(e, opts, log, parts[0]);
       j.Succeeds() && AllStored(e, opts, j.Complete(), parts[1..]))
  }

  /** A log that a run giving up leaves: some sections are complete, and the next one has stopped with
      whole batches kept, or could not begin because its header is refused. */
  ghost predicate StoppedAt(e: Engine, opts: Options, log: seq<Event>, parts: seq<Part>, closing: Closing,
                            end: seq<Event>)
    decreases |parts|
  {
    if parts == [] then closing == Refused && end == log
    else
      var j := JobOf(e, opts, log, parts[0]);
      || j.Stops(|parts| == 1 && closing == NoData, end)
      || (j.Succeeds() && StoppedAt(e, opts, j.Complete(), parts[1..], closing, end))
  }

  ghost predicate RunSafe(e: Engine, opts: Options, log: seq<Event>, parts: Parts, r: LoadResult) {
    match r
    case Loaded(end, _) =>
      parts.closing == Closed && AllStored(e, opts, log, parts.parts) && end == StoredAll(e, opts, log, parts.parts)
    case GaveUp(end) => StoppedAt(e, opts, log, parts.parts, parts.closing, end)
  }

  /** Only appending to databases with duplicates relies on what is read back. */
  ghost predicate ReliableEngine(e: Engine, opts: Options) {
    opts.append ==> LastIsAppended(e)
  }

  /** For every input, every engine and all options: a run that ends well has stored the accepted
      records of every section, in order; one that gives up has stored complete sections followed by
      whole batches of the one that failed. */
  lemma {:induction false} LoadIsBatchSafe(e: Engine, opts: Options, parse: LineParser, g: Globals, log: seq<Event>,
                                           rest: Bytes, ksize: nat, dsize: nat)
    requires ksize >= 2 && dsize >= 2 && ReliableEngine(e, opts)
    ensures RunSafe(e, opts, log, ReadParts(opts, parse, g, rest, ksize, dsize),
                    LoadFrom(e, opts, parse, g, log, rest, ksize, dsize))
    decreases |rest|
  {
    var h := HeaderOf(opts, parse, g, rest, dsize);
    if h.Parsed? {
      var all := ReadAll(h.rest, ksize, dsize, h.g.asText, opts.nohdr);
      SectionIsBatchSafe(e, opts, h.g, log, h.rest, ksize, dsize);
      var s := Section(e, opts, h.g, log, h.rest, ksize, dsize);
      if s.SectionDone? && !s.eof {
        LoadIsBatchSafe(e, opts, parse, h.g, s.log, s.rest, s.ksize, s.dsize);
      }
      OneMorePart(e, opts, parse, g, log, rest, ksize, dsize, h, all, s);
    }
  }

  lemma OneMorePart(e: Engine, opts: Options, parse: LineParser, g: Globals, log: seq<Event>,
                    rest: Bytes, ksize: nat, dsize: nat, h: HeaderResult, all: Records, s: SectionResult)
    requires ksize >= 2 && dsize >= 2
    requires h.Parsed? && h == HeaderOf(opts, parse, g, rest, dsize)
    requires all == ReadAll(h.rest, ksize, dsize, h.g.asText, opts.nohdr)
    requires s == Section(e, opts, h.g, log, h.rest, ksize, dsize)
    requires BatchSafe(Job(e, opts, h.g, log, all.records), all, s)
    requires all.ending == AtDataEnd && s.SectionDone? ==>
      RunSafe(e, opts, s.log, ReadParts(opts, parse, h.g, all.rest, all.ksize, all.dsize),
              LoadFrom(e, opts, parse, h.g, s.log, all.rest, all.ksize, all.dsize))
    ensures RunSafe(e, opts, log, ReadParts(opts, parse, g, rest, ksize, dsize),
                    LoadFrom(e, opts, parse, g, log, rest, ksize, dsize))
  {
    var part := Part(h.g, all.records);
    var parts := ReadParts(opts, parse, g, rest, ksize, dsize);
    assert parts.parts != [] && parts.parts[0] == part;
    if all.ending == AtDataEnd {
      var more := ReadParts(opts, parse, h.g, all.rest, all.ksize, all.dsize);
      assert parts.parts[1..] == more.parts;
    } else {
      assert parts.parts[1..] == [];
    }
  }

  // ---------------------------------------------------------------- the records stored

  /** The records of the puts in a log. */
  ghost function RecordsIn(log: seq<Event>): seq<Dump.Record> {
    if log == [] then []
    else RecordsIn(log[..|log| - 1])
         + match log[|log| - 1] case Open(_, _) => [] case Put(key, data, _) => [Dump.Record(key, data)]
  }

  ghost function AllRecords(parts: seq<Part>): seq<Dump.Record>
    decreases |parts|
  {
    if parts == [] then [] else parts[0].records + AllRecords(parts[1..])
  }

  lemma {:induction false} RecordsInAppend(a: seq<Event>, b: seq<Event>)
    ensures RecordsIn(a + b) == RecordsIn(a) + RecordsIn(b)
  {
    if b == [] {
      assert a + b == a;
    } else {
      var b' := b[..|b| - 1];
      assert (a + b)[..|a + b| - 1] == a + b';
      RecordsInAppend(a, b');
    }
  }

  lemma {:induction false} RecordsOfAllPuts(opts: Options, flags: Flags, rs: seq<Dump.Record>, n: nat)
    requires n <= |rs|
    ensures RecordsIn(PutsOf(opts, flags, rs)[..n]) == rs[..n]
  {
    if n > 0 {
      var puts := PutsOf(opts, flags, rs);
      assert puts[..n][..n - 1] == puts[..n - 1];
      assert puts[n - 1] == PutOf(opts, flags, rs, n - 1);
      RecordsOfAllPuts(opts, flags, rs, n - 1);
      assert rs[..n] == rs[..n - 1] + [rs[n - 1]];
    }
  }

  /** Opening a database stores no record. */
  lemma RecordsBehindOpening(j: Job, puts: seq<Event>)
    ensures RecordsIn(j.Opened() + puts) == RecordsIn(j.log0) + RecordsIn(puts)
  {
    var open := [Open(j.g.subname, j.g.flags)];
    assert open[..0] == [] && RecordsIn(open) == [];
    RecordsInAppend(j.log0, open);
    RecordsInAppend(j.Opened(), puts);
    assert RecordsIn(j.log0) + [] == RecordsIn(j.log0);
  }

  lemma PrefixOfPrefix(puts: seq<Event>, n: nat, k: nat)
    requires k <= n <= |puts|
    ensures puts[..n][..k] == puts[..k]
  {
  }

  /** The first `k` accepted puts of a section without skips are its first `k` records. */
  lemma RecordsOfFirstPuts(j: Job, n: nat, k: nat)
    requires NoSkips(j.e, j.opts) && k <= n <= |j.rs| && j.AllThrough(n)
    ensures k <= |j.Accepted(n)| && RecordsIn(j.Opened() + j.Accepted(n)[..k]) == RecordsIn(j.log0) + j.rs[..k]
  {
    AllAccepted(j, n);
    PrefixOfPrefix(PutsOf(j.opts, j.g.flags, j.rs), n, k);
    RecordsOfAllPuts(j.opts, j.g.flags, j.rs, k);
    RecordsBehindOpening(j, j.Accepted(n)[..k]);
  }

  lemma RecordsOfComplete(j: Job)
    requires NoSkips(j.e, j.opts) && j.Succeeds()
    ensures RecordsIn(j.Complete()) == RecordsIn(j.log0) + j.rs
  {
    AllAccepted(j, |j.rs|);
    RecordsOfFirstPuts(j, |j.rs|, |j.rs|);
    assert j.Accepted(|j.rs|)[..|j.rs|] == j.Accepted(|j.rs|);
    assert j.rs[..|j.rs|] == j.rs;
  }

  lemma RecordsOfBatches(j: Job, log: seq<Event>) returns (k: nat)
    requires NoSkips(j.e, j.opts) && j.WholeBatches(log)
    ensures k <= |j.rs| && RecordsIn(log) == RecordsIn(j.log0) + j.rs[..k]
  {
    if log == j.log0 {
      k := 0;
    } else {
      var n: nat :| n <= |j.rs| && j.AllThrough(n) && log == j.Kept(n);
      AllAccepted(j, n);
      k := WholeOf(n);
      RecordsOfFirstPuts(j, n, k);
    }
  }

  lemma {:induction false} StoredRecords(e: Engine, opts: Options, log: seq<Event>, parts: seq<Part>)
    requires NoSkips(e, opts) && AllStored(e, opts, log, parts)
    ensures RecordsIn(StoredAll(e, opts, log, parts)) == RecordsIn(log) + AllRecords(parts)
    decreases |parts|
  {
    if parts != [] {
      var j := JobOf(e, opts, log, parts[0]);
      RecordsOfComplete(j);
      StoredRecords(e, opts, j.Complete(), parts[1..]);
      assert RecordsIn(log) + j.rs + AllRecords(parts[1..]) == RecordsIn(log) + (j.rs + AllRecords(parts[1..]));
    }
  }

  lemma {:induction false} StoppedRecords(e: Engine, opts: Options, log: seq<Event>, parts: seq<Part>,
                                          closing: Closing, end: seq<Event>) returns (k: nat)
    requires NoSkips(e, opts) && StoppedAt(e, opts, log, parts, closing, end)
    ensures k <= |AllRecords(parts)| && RecordsIn(end) == RecordsIn(log) + AllRecords(parts)[..k]
    decreases |parts|
  {
    if parts == [] {
      k := 0;
    } else {
      var j, more := JobOf(e, opts, log, parts[0]), AllRecords(parts[1..]);
      if j.Stops(|parts| == 1 && closing == NoData, end) {
        StoppedIsWholeBatches(j, |parts| == 1 && closing == NoData, end);
        k := RecordsOfBatches(j, end);
        assert (j.rs + more)[..k] == j.rs[..k];
      } else {
        RecordsOfComplete(j);
        var k' := StoppedRecords(e, opts, j.Complete(), parts[1..], closing, end);
        k := |j.rs| + k';
        PrefixBeyond(RecordsIn(log), j.rs, more, k');
      }
    }
  }

  lemma PrefixBeyond(a: seq<Dump.Record>, b: seq<Dump.Record>, c: seq<Dump.Record>, k: nat)
    requires k <= |c|
    ensures a + b + c[..k] == a + (b + c)[..|b| + k]
  {
    assert (b + c)[..|b| + k] == b + c[..k];
  }

  /** When no record is skipped, the records stored by a run are a prefix of the records of the input,
      over all sections; all of them when the run ends well. */
  lemma LoadIsPrefixSafe(e: Engine, opts: Options, parse: LineParser, g: Globals, log: seq<Event>,
                         rest: Bytes, ksize: nat, dsize: nat) returns (k: nat)
    requires ksize >= 2 && dsize >= 2 && ReliableEngine(e, opts) && NoSkips(e, opts)
    ensures var records := AllRecords(ReadParts(opts, parse, g, rest, ksize, dsize).parts);
      match LoadFrom(e, opts, parse, g, log, rest, ksize, dsize)
      case Loaded(end, _) => RecordsIn(end) == RecordsIn(log) + records
      case GaveUp(end) => k <= |records| && RecordsIn(end) == RecordsIn(log) + records[..k]
  {
    var parts := ReadParts(opts, parse, g, rest, ksize, dsize);
    LoadIsBatchSafe(e, opts, parse, g, log, rest, ksize, dsize);
    k := 0;
    match LoadFrom(e, opts, parse, g, log, rest, ksize, dsize)
    case Loaded(end, _) => StoredRecords(e, opts, log, parts.parts);
    case GaveUp(end) => k := StoppedRecords(e, opts, log, parts.parts, parts.closing, end);
  }
}
