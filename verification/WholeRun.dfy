/** The load program run over the output of the dump program (mdb_dump.c, mdb_load.c). */
module WholeRun {
  import opened CTypes
  import opened Encoding
  import opened LineReader
  import opened Header
  import opened Load
  import opened Batching
  import opened Dump
  import opened RoundTrip

  /** An engine that carries out whatever it is asked. */
  ghost predicate Accepts(e: Engine) {
    && LastIsAppended(e)
    && (forall log, n, f :: e.open(log, n, f))
    && (forall log, k, d, f :: e.put(log, k, d, f) == PutOk)
    && (forall log :: e.commit(log))
  }

  /** There is such an engine: one that answers with the key of the last put. */
  lemma SomeEngineAccepts() returns (e: Engine)
    ensures Accepts(e)
  {
    e := Engine((_, _, _) => true, (_, _, _, _) => PutOk, _ => true,
                (log: seq<Event>) => if log != [] && log[|log| - 1].Put? then log[|log| - 1].key else []);
  }

  // ---------------------------------------------------------------- one section

  lemma {:induction false} AcceptedPutsGoThrough(e: Engine, opts: Options, flags: Flags, b: Batch, rs: seq<Dump.Record>)
    requires Accepts(e)
    ensures PutAll(e, opts, flags, b, rs).AllPut?
    decreases |rs|
  {
    if rs != [] {
      var s := PutOne(e, opts, flags, b, rs[0]);
      assert s.Go?;
      AcceptedPutsGoThrough(e, opts, flags, s.b, rs[1..]);
    }
  }

  /** The records of a dumped database are stored in order, and reading stops behind its end. */
  lemma LoadSectionOfDump(e: Engine, opts: Options, g: Globals, log: seq<Event>, isprint: Locale,
                          rs: seq<Dump.Record>, tail: Bytes, ksize: nat, dsize: nat)
    requires Sane(isprint) && Accepts(e) && !opts.nohdr && ksize >= 10 && dsize >= 2
    ensures var rest := RecordsText(g.asText, isprint, rs) + DATA_END + [NEWLINE] + tail;
      var r := Section(e, opts, g, log, rest, ksize, dsize);
      && r.SectionDone? && !r.eof && r.rest == tail && r.ksize >= ksize && r.dsize >= dsize
      && r.log == log + SectionEvents(opts, g, rs)
  {
    var rest := RecordsText(g.asText, isprint, rs) + DATA_END + [NEWLINE] + tail;
    ReadAllOfDump(isprint, rs, tail, ksize, dsize, g.asText);
    LoadSectionOfRecords(e, opts, g, log, rest, rs, tail, ksize, dsize);
  }

  lemma LoadSectionOfRecords(e: Engine, opts: Options, g: Globals, log: seq<Event>, rest: Bytes,
                             rs: seq<Dump.Record>, tail: Bytes, ksize: nat, dsize: nat)
    requires Accepts(e) && ksize >= 2 && dsize >= 2
    requires ReadsBack(ReadAll(rest, ksize, dsize, g.asText, opts.nohdr), rs, tail, ksize, dsize)
    ensures var r := Section(e, opts, g, log, rest, ksize, dsize);
      && r.SectionDone? && !r.eof && r.rest == tail && r.ksize >= ksize && r.dsize >= dsize
      && r.log == log + SectionEvents(opts, g, rs)
  {
    var b := Batch(log, [Open(g.subname, g.flags)], [], 0);
    SectionReadsThenPuts(e, opts, g, b, rest, ksize, dsize);
    AcceptedPutsGoThrough(e, opts, g.flags, b, rs);
    SectionIsPrefixSafe(e, opts, g, log, rest, ksize, dsize);
  }

  // ---------------------------------------------------------------- all sections

  /** The events of loading a dump: each database opened under its name with its table flags, its
      records put, and at the end the extra pass, which only opens the last database again. */
  ghost function LoadedEvents(opts: Options, asText: bool, info: EnvInfo, g: Globals, dbs: seq<Database>): seq<Event>
    decreases |dbs|
  {
    if dbs == [] then [Open(g.subname, NO_FLAGS)]
    else
      var g1 := HeaderGlobals(g.(flags := NO_FLAGS), asText, info, dbs[0]);
      SectionEvents(opts, g1, dbs[0].records) + LoadedEvents(opts, asText, info, g1, dbs[1..])
  }

  /** The pass over the empty rest of the input adds no record. */
  lemma LoadOfNothing(e: Engine, opts: Options, scan: PointerScan, older: OlderBytes, g: Globals, log: seq<Event>,
                      ksize: nat, dsize: nat)
    requires Accepts(e) && !opts.nohdr && ksize >= 2 && dsize >= 2
    ensures LoadFrom(e, opts, LineParserFor(scan, older), g, log, [], ksize, dsize)
         == Loaded(log + [Open(g.subname, NO_FLAGS)], g.(flags := NO_FLAGS))
  {
    var g1 := g.(flags := NO_FLAGS);
    var b := Batch(log, [Open(g1.subname, g1.flags)], [], 0);
    assert ReadBoth([], ksize, dsize, g1.asText, false) == NoMore(true, []);
    assert SectionFrom(e, opts, g1, b, [], ksize, dsize) == Finish(e, b, true, [], ksize, dsize);
  }

  lemma RegroupEvents(a: seq<Event>, b: seq<Event>, c: seq<Event>)
    ensures a + b + c == a + (b + c)
  {
  }

  ghost predicate AllLoadable(info: EnvInfo, dbs: seq<Database>, scan: PointerScan, size: nat) {
    forall i :: 0 <= i < |dbs| ==> Loadable(info, dbs[i], scan, size)
  }

  lemma LargerBufferLoads(info: EnvInfo, dbs: seq<Database>, scan: PointerScan, size: nat, size': nat)
    requires dbs != [] && AllLoadable(info, dbs, scan, size) && size <= size'
    ensures AllLoadable(info, dbs[1..], scan, size')
  {
    forall i | 0 <= i < |dbs[1..]| ensures Loadable(info, dbs[1..][i], scan, size') {
      assert Loadable(info, dbs[i + 1], scan, size);
    }
  }

  lemma LoadStep(e: Engine, opts: Options, scan: PointerScan, older: OlderBytes, g: Globals, log: seq<Event>,
                 isprint: Locale, info: EnvInfo, asText: bool, db: Database, tail: Bytes, ksize: nat, dsize: nat)
    returns (g1: Globals, log1: seq<Event>, ksize1: nat, dsize1: nat)
    requires Sane(isprint) && Accepts(e) && !opts.nohdr && ksize >= 10 && dsize >= 64
    requires g.asText ==> asText
    requires Loadable(info, db, scan, dsize)
    ensures g1 == HeaderGlobals(g.(flags := NO_FLAGS), asText, info, db)
    ensures log1 == log + SectionEvents(opts, g1, db.records)
    ensures ksize1 >= ksize && dsize1 >= dsize
    ensures var p, rest := LineParserFor(scan, older), DatabaseText(asText, isprint, info, db) + tail;
      LoadFrom(e, opts, p, g, log, rest, ksize, dsize) == LoadFrom(e, opts, p, g1, log1, tail, ksize1, dsize1)
  {
    var g0 := g.(flags := NO_FLAGS);
    g1 := HeaderGlobals(g0, asText, info, db);
    var header := JoinLines(HeaderLines(asText, info, db));
    var rest1 := RecordsText(asText, isprint, db.records) + DATA_END + [NEWLINE] + tail;
    RegroupRest(header, RecordsText(asText, isprint, db.records), DATA_END, [NEWLINE], tail);
    ParseHeaderOfDump(asText, info, db, rest1, dsize, g0, scan, older);
    LoadSectionOfDump(e, opts, g1, log, isprint, db.records, tail, ksize, dsize);
    var r := Section(e, opts, g1, log, rest1, ksize, dsize);
    log1, ksize1, dsize1 := r.log, r.ksize, r.dsize;
  }

  /** The load program, run over the dump of any databases in either format, stores for each of
      them exactly its records, in order, under its name and with its table flags. */
  lemma {:induction false} LoadOfDump(e: Engine, opts: Options, scan: PointerScan, older: OlderBytes,
                                      g: Globals, log: seq<Event>,
                                      isprint: Locale, info: EnvInfo, asText: bool, dbs: seq<Database>,
                                      ksize: nat, dsize: nat)
    requires Sane(isprint) && Accepts(e) && !opts.nohdr && ksize >= 10 && dsize >= 64
    requires g.asText ==> asText
    requires AllLoadable(info, dbs, scan, dsize)
    ensures var p, dump := LineParserFor(scan, older), DumpText(asText, isprint, info, dbs);
      var r := LoadFrom(e, opts, p, g, log, dump, ksize, dsize);
      r.Loaded? && r.log == log + LoadedEvents(opts, asText, info, g, dbs)
    decreases |dbs|
  {
    if dbs == [] {
      LoadOfNothing(e, opts, scan, older, g, log, ksize, dsize);
    } else {
      var tail := DumpText(asText, isprint, info, dbs[1..]);
      var g1, log1, ksize1, dsize1 :=
        LoadStep(e, opts, scan, older, g, log, isprint, info, asText, dbs[0], tail, ksize, dsize);
      LargerBufferLoads(info, dbs, scan, dsize, dsize1);
      LoadOfDump(e, opts, scan, older, g1, log1, isprint, info, asText, dbs[1..], ksize1, dsize1);
      RegroupEvents(log, SectionEvents(opts, g1, dbs[0].records), LoadedEvents(opts, asText, info, g1, dbs[1..]));
    }
  }

  // ---------------------------------------------------------------- what the events mean

  /** The order in which a cursor visits the records of a database; it depends on the database's flags. */
  type RecordOrder = (Flags, Dump.Record, Dump.Record) -> bool

  /** A strict order; without duplicates no two records share a key. */
  ghost predicate CursorOrder(before: RecordOrder) {
    && (forall f, a :: !before(f, a, a))
    && (forall f, a, b, c :: before(f, a, b) && before(f, b, c) ==> before(f, a, c))
    && (forall f, a, b :: DUPSORT !in f && before(f, a, b) ==> a.key != b.key)
  }

  ghost predicate InOrder(before: RecordOrder, flags: Flags, rs: seq<Dump.Record>) {
    forall i, j :: 0 <= i < j < |rs| ==> before(flags, rs[i], rs[j])
  }

  ghost function Pairs(rs: seq<Dump.Record>): set<Dump.Record> {
    set r | r in rs
  }

  /** A cursor visits a set of records in one order only. */
  lemma {:induction false} OrderIsUnique(before: RecordOrder, flags: Flags, rs: seq<Dump.Record>, rs': seq<Dump.Record>)
    requires CursorOrder(before) && InOrder(before, flags, rs) && InOrder(before, flags, rs')
    requires Pairs(rs) == Pairs(rs')
    ensures rs == rs'
    decreases |rs|
  {
    FirstIsPair(rs);
    FirstIsPair(rs');
    if rs != [] {
      SameFirst(before, flags, rs, rs');
      PairsOfTail(before, flags, rs);
      PairsOfTail(before, flags, rs');
      OrderIsUnique(before, flags, rs[1..], rs'[1..]);
      assert rs == [rs[0]] + rs[1..] && rs' == [rs'[0]] + rs'[1..];
    }
  }

  lemma FirstIsPair(rs: seq<Dump.Record>)
    ensures rs != [] ==> rs[0] in Pairs(rs)
    ensures rs == [] ==> Pairs(rs) == {}
  {
  }

  lemma NoCycle(before: RecordOrder, flags: Flags, a: Dump.Record, b: Dump.Record)
    requires CursorOrder(before)
    ensures !(before(flags, a, b) && before(flags, b, a))
  {
  }

  lemma FirstIsBefore(before: RecordOrder, flags: Flags, rs: seq<Dump.Record>, k: nat)
    requires InOrder(before, flags, rs) && k < |rs|
    ensures rs[0] == rs[k] || before(flags, rs[0], rs[k])
  {
  }

  lemma SameFirst(before: RecordOrder, flags: Flags, rs: seq<Dump.Record>, rs': seq<Dump.Record>)
    requires CursorOrder(before) && InOrder(before, flags, rs) && InOrder(before, flags, rs')
    requires rs != [] && rs' != [] && Pairs(rs) == Pairs(rs')
    ensures rs[0] == rs'[0]
  {
    assert rs[0] in Pairs(rs') && rs'[0] in Pairs(rs);
    var k :| 0 <= k < |rs'| && rs'[k] == rs[0];
    var m :| 0 <= m < |rs| && rs[m] == rs'[0];
    NoCycle(before, flags, rs[0], rs'[0]);
    FirstIsBefore(before, flags, rs', k);
    FirstIsBefore(before, flags, rs, m);
  }

  lemma PairsOfTail(before: RecordOrder, flags: Flags, rs: seq<Dump.Record>)
    requires CursorOrder(before) && InOrder(before, flags, rs) && rs != []
    ensures Pairs(rs[1..]) == Pairs(rs) - {rs[0]}
    ensures InOrder(before, flags, rs[1..])
  {
    forall r | r in rs[1..] ensures r in rs && r != rs[0] {
      var i :| 0 <= i < |rs[1..]| && rs[1..][i] == r;
      assert before(flags, rs[0], rs[i + 1]);
    }
    forall r | r in rs && r != rs[0] ensures r in rs[1..] {
      var i :| 0 <= i < |rs| && rs[i] == r;
      assert rs[1..][i - 1] == r;
    }
  }

  /** A database of the engine: its records by key, with a set of values for each key if it has
      duplicates, with one value otherwise. */
  datatype Stored = Stored(flags: Flags, pairs: set<Dump.Record>)

  /** An environment: its databases, and the one that is open. */
  datatype Environment = Environment(current: Option<Bytes>, dbs: map<Option<Bytes>, Stored>)

  /** A put adds a value to its key, or without duplicates replaces the one that is there. */
  ghost function PutInto(db: Stored, r: Dump.Record): Stored {
    db.(pairs := (if DUPSORT in db.flags then db.pairs else set p | p in db.pairs && p.key != r.key) + {r})
  }

  ghost function Apply(env: Environment, ev: Event): Environment {
    match ev
    case Open(name, flags) =>
      Environment(name, if name in env.dbs then env.dbs else env.dbs[name := Stored(flags, {})])
    case Put(key, data, _) =>
      if env.current in env.dbs then
        env.(dbs := env.dbs[env.current := PutInto(env.dbs[env.current], Dump.Record(key, data))])
      else env
  }

  ghost function Replay(env: Environment, log: seq<Event>): Environment
    decreases |log|
  {
    if log == [] then env else Replay(Apply(env, log[0]), log[1..])
  }

  lemma {:induction false} ReplayAppend(env: Environment, a: seq<Event>, b: seq<Event>)
    ensures Replay(env, a + b) == Replay(Replay(env, a), b)
    decreases |a|
  {
    if a == [] {
      assert a + b == b;
    } else {
      assert (a + b)[1..] == a[1..] + b;
      ReplayAppend(Apply(env, a[0]), a[1..], b);
    }
  }

  ghost function PutAllInto(db: Stored, rs: seq<Dump.Record>): Stored
    decreases |rs|
  {
    if rs == [] then db else PutAllInto(PutInto(db, rs[0]), rs[1..])
  }

  /** No put of `rs` replaces a record: keys are distinct, or there are duplicates. */
  ghost predicate NoClash(db: Stored, rs: seq<Dump.Record>) {
    DUPSORT !in db.flags ==>
      && (forall i, j :: 0 <= i < j < |rs| ==> rs[i].key != rs[j].key)
      && (forall p, i :: p in db.pairs && 0 <= i < |rs| ==> p.key != rs[i].key)
  }

  lemma NoClashStep(db: Stored, rs: seq<Dump.Record>)
    requires rs != [] && NoClash(db, rs)
    ensures PutInto(db, rs[0]) == db.(pairs := db.pairs + {rs[0]})
    ensures NoClash(PutInto(db, rs[0]), rs[1..])
  {
  }

  lemma {:induction false} PutAllCollects(db: Stored, rs: seq<Dump.Record>)
    requires NoClash(db, rs)
    ensures PutAllInto(db, rs) == db.(pairs := db.pairs + Pairs(rs))
    decreases |rs|
  {
    if rs == [] {
      assert db.pairs + Pairs(rs) == db.pairs;
    } else {
      NoClashStep(db, rs);
      PutAllCollects(PutInto(db, rs[0]), rs[1..]);
      assert rs == [rs[0]] + rs[1..];
      assert db.pairs + {rs[0]} + Pairs(rs[1..]) == db.pairs + Pairs(rs);
    }
  }

  ghost predicate ArePuts(log: seq<Event>, rs: seq<Dump.Record>) {
    |log| == |rs|
    && forall i :: 0 <= i < |rs| ==> log[i].Put? && log[i].key == rs[i].key && log[i].data == rs[i].data
  }

  lemma {:induction false} ReplayPuts(env: Environment, log: seq<Event>, rs: seq<Dump.Record>)
    requires env.current in env.dbs && ArePuts(log, rs)
    ensures Replay(env, log) == env.(dbs := env.dbs[env.current := PutAllInto(env.dbs[env.current], rs)])
    decreases |rs|
  {
    if rs == [] {
      assert env.dbs[env.current := env.dbs[env.current]] == env.dbs;
    } else {
      ReplayPuts(Apply(env, log[0]), log[1..], rs[1..]);
    }
  }

  lemma PutsArePuts(opts: Options, flags: Flags, rs: seq<Dump.Record>)
    ensures ArePuts(PutsOf(opts, flags, rs), rs)
  {
    forall i | 0 <= i < |rs| ensures PutsOf(opts, flags, rs)[i] == PutOf(opts, flags, rs, i) {}
  }

  lemma ReplaySection(env: Environment, opts: Options, g: Globals, rs: seq<Dump.Record>)
    requires g.subname !in env.dbs && NoClash(Stored(g.flags, {}), rs)
    ensures Replay(env, SectionEvents(opts, g, rs))
         == Environment(g.subname, env.dbs[g.subname := Stored(g.flags, Pairs(rs))])
  {
    var open := Open(g.subname, g.flags);
    ReplayAppend(env, [open], PutsOf(opts, g.flags, rs));
    ReplayOne(env, open);
    PutsArePuts(opts, g.flags, rs);
    ReplayPuts(Apply(env, open), PutsOf(opts, g.flags, rs), rs);
    PutAllCollects(Stored(g.flags, {}), rs);
    assert {} + Pairs(rs) == Pairs(rs);
  }

  lemma ReplayOne(env: Environment, ev: Event)
    ensures Replay(env, [ev]) == Apply(env, ev)
  {
    assert [ev][1..] == [];
  }

  /** What should come back of a database. */
  ghost function Restored(db: Database): Stored {
    Stored(db.flags * TABLE_BITS, Pairs(db.records))
  }

  /** The databases as they should come back, under their names. */
  ghost function Expected(dbs: seq<Database>): map<Option<Bytes>, Stored>
    decreases |dbs|
  {
    if dbs == [] then map[] else Expected(dbs[..|dbs| - 1])[dbs[|dbs| - 1].name := Restored(dbs[|dbs| - 1])]
  }

  ghost predicate DistinctNames(dbs: seq<Database>) {
    forall i, j :: 0 <= i < j < |dbs| ==> dbs[i].name != dbs[j].name
  }

  lemma {:induction false} ExpectedLookup(dbs: seq<Database>)
    requires DistinctNames(dbs)
    ensures forall i :: 0 <= i < |dbs| ==>
              dbs[i].name in Expected(dbs) && Expected(dbs)[dbs[i].name] == Restored(dbs[i])
    ensures forall name <- Expected(dbs) :: exists i :: 0 <= i < |dbs| && dbs[i].name == name
    decreases |dbs|
  {
    if dbs != [] { ExpectedLookup(dbs[..|dbs| - 1]); }
  }

  /** With `-a` every database has a name; a single database may have none. */
  ghost predicate ProperNames(dbs: seq<Database>, g: Globals) {
    (forall i :: 0 <= i < |dbs| ==> dbs[i].name.Some?) || (|dbs| == 1 && g.subname == None)
  }

  /** Every database is dumped in cursor order. */
  ghost predicate DumpedInOrder(before: RecordOrder, dbs: seq<Database>) {
    forall i :: 0 <= i < |dbs| ==> InOrder(before, dbs[i].flags * TABLE_BITS, dbs[i].records)
  }

  lemma OrderHasNoClash(before: RecordOrder, flags: Flags, rs: seq<Dump.Record>)
    requires CursorOrder(before) && InOrder(before, flags, rs)
    ensures NoClash(Stored(flags, {}), rs)
  {
    if DUPSORT !in flags {
      forall i, j | 0 <= i < j < |rs| ensures rs[i].key != rs[j].key {
        assert before(flags, rs[i], rs[j]);
      }
    }
  }

  lemma NewName(done: seq<Database>, db: Database, more: seq<Database>)
    requires DistinctNames(done + ([db] + more))
    ensures db.name !in Expected(done)
  {
    var all := done + ([db] + more);
    forall i, j | 0 <= i < j < |done| ensures done[i].name != done[j].name {
      assert all[i].name != all[j].name;
    }
    ExpectedLookup(done);
    forall i | 0 <= i < |done| ensures done[i].name != db.name {
      assert all[i].name != all[|done|].name;
    }
  }

  /** What `ReplayLoaded` asks of the databases left also holds behind the first of them. */
  lemma NextDatabases(before: RecordOrder, done: seq<Database>, dbs: seq<Database>, g: Globals, g1: Globals)
    requires DistinctNames(done + dbs) && ProperNames(dbs, g) && DumpedInOrder(before, dbs)
    requires dbs != [] && g1.subname == dbs[0].name
    ensures dbs[0].name !in Expected(done)
    ensures done + [dbs[0]] + dbs[1..] == done + dbs
    ensures ProperNames(dbs[1..], g1) && DumpedInOrder(before, dbs[1..])
    ensures Expected(done + [dbs[0]]) == Expected(done)[dbs[0].name := Restored(dbs[0])]
  {
    assert done + dbs == done + ([dbs[0]] + dbs[1..]);
    NewName(done, dbs[0], dbs[1..]);
    assert (done + [dbs[0]])[..|done|] == done;
  }

  lemma {:induction false} ReplayLoaded(env: Environment, opts: Options, asText: bool, info: EnvInfo, g: Globals,
                                        before: RecordOrder, done: seq<Database>, dbs: seq<Database>)
    requires DistinctNames(done + dbs) && ProperNames(dbs, g)
    requires CursorOrder(before) && DumpedInOrder(before, dbs)
    requires env.dbs == Expected(done)
    requires dbs == [] ==> g.subname in env.dbs
    ensures Replay(env, LoadedEvents(opts, asText, info, g, dbs)).dbs == Expected(done + dbs)
    decreases |dbs|
  {
    if dbs == [] {
      ReplayOne(env, Open(g.subname, NO_FLAGS));
      assert done + dbs == done;
    } else {
      var db, more, g1 := dbs[0], dbs[1..], HeaderGlobals(g.(flags := NO_FLAGS), asText, info, dbs[0]);
      assert g1.subname == db.name && g1.flags == db.flags * TABLE_BITS;
      NextDatabases(before, done, dbs, g, g1);
      OrderHasNoClash(before, db.flags * TABLE_BITS, db.records);
      var s := SectionEvents(opts, g1, db.records);
      ReplaySection(env, opts, g1, db.records);
      ReplayAppend(env, s, LoadedEvents(opts, asText, info, g1, more));
      ReplayLoaded(Replay(env, s), opts, asText, info, g1, before, done + [db], more);
    }
  }

  /** The databases of an environment after a load: exactly the dumped ones, each with its flags
      restricted to the six table bits and exactly its records. */
  ghost predicate ComeBack(env: Environment, dbs: seq<Database>) {
    && (forall i :: 0 <= i < |dbs| ==> dbs[i].name in env.dbs && env.dbs[dbs[i].name] == Restored(dbs[i]))
    && (forall name <- env.dbs :: exists i :: 0 <= i < |dbs| && dbs[i].name == name)
  }

  /** Loading a dump into an empty environment gives every database back: for distinct names the
      environment holds exactly the dumped databases, keyed as the engine keys them. */
  lemma DumpedDatabasesComeBack(e: Engine, opts: Options, scan: PointerScan, older: OlderBytes, g: Globals,
                                isprint: Locale, info: EnvInfo, asText: bool, before: RecordOrder,
                                dbs: seq<Database>, ksize: nat, dsize: nat)
    requires Sane(isprint) && Accepts(e) && !opts.nohdr && ksize >= 10 && dsize >= 64
    requires g.asText ==> asText
    requires AllLoadable(info, dbs, scan, dsize)
    requires dbs != [] && DistinctNames(dbs) && ProperNames(dbs, g)
    requires CursorOrder(before) && DumpedInOrder(before, dbs)
    ensures var p, dump := LineParserFor(scan, older), DumpText(asText, isprint, info, dbs);
      var r := LoadFrom(e, opts, p, g, [], dump, ksize, dsize);
      r.Loaded? && ComeBack(Replay(Environment(None, map[]), r.log), dbs)
  {
    LoadOfDump(e, opts, scan, older, g, [], isprint, info, asText, dbs, ksize, dsize);
    assert [] + LoadedEvents(opts, asText, info, g, dbs) == LoadedEvents(opts, asText, info, g, dbs);
    EventsComeBack(opts, asText, info, g, before, dbs);
  }

  lemma EventsComeBack(opts: Options, asText: bool, info: EnvInfo, g: Globals, before: RecordOrder, dbs: seq<Database>)
    requires dbs != [] && DistinctNames(dbs) && ProperNames(dbs, g)
    requires CursorOrder(before) && DumpedInOrder(before, dbs)
    ensures ComeBack(Replay(Environment(None, map[]), LoadedEvents(opts, asText, info, g, dbs)), dbs)
  {
    assert [] + dbs == dbs;
    ReplayLoaded(Environment(None, map[]), opts, asText, info, g, before, [], dbs);
    ExpectedComesBack(Replay(Environment(None, map[]), LoadedEvents(opts, asText, info, g, dbs)), dbs);
  }

  lemma ExpectedComesBack(env: Environment, dbs: seq<Database>)
    requires DistinctNames(dbs) && env.dbs == Expected(dbs)
    ensures ComeBack(env, dbs)
  {
    ExpectedLookup(dbs);
  }

  /** So a cursor over a database that has come back visits the dumped records in the dumped order:
      dumping it again gives the same record lines. */
  lemma SecondDumpIsTheSame(env: Environment, before: RecordOrder, dbs: seq<Database>, i: nat, rs: seq<Dump.Record>,
                            asText: bool, isprint: Locale)
    requires ComeBack(env, dbs) && CursorOrder(before) && DumpedInOrder(before, dbs) && i < |dbs|
    requires var db := env.dbs[dbs[i].name]; InOrder(before, db.flags, rs) && Pairs(rs) == db.pairs
    ensures rs == dbs[i].records
    ensures RecordsText(asText, isprint, rs) == RecordsText(asText, isprint, dbs[i].records)
  {
    OrderIsUnique(before, dbs[i].flags * TABLE_BITS, rs, dbs[i].records);
  }

  // ---------------------------------------------------------------- names that do not come back

  ghost predicate NoNewline(name: Option<Bytes>) {
    name.Some? ==> forall k :: 0 <= k < |name.value| ==> name.value[k] != NEWLINE
  }

  lemma {:induction false} UpToNewlineHasNone(s: Bytes)
    ensures forall k :: 0 <= k < |UpToNewline(s)| ==> UpToNewline(s)[k] != NEWLINE
  {
    if s != [] { UpToNewlineHasNone(s[1..]); }
  }

  lemma ParsedLineName(line: Bytes, g: Globals, scan: PointerScan)
    requires NoNewline(g.subname)
    ensures ParseLine(line, g, scan).Next? ==> NoNewline(ParseLine(line, g, scan).g.subname)
  {
    if DATABASE <= line { UpToNewlineHasNone(line[|DATABASE|..]); }
  }

  lemma {:induction false} ParsedNameHasNoNewline(rest: Bytes, size: nat, g: Globals,
                                                  scan: PointerScan, older: OlderBytes)
    requires size >= 2 && NoNewline(g.subname)
    ensures var h := ParseHeader(rest, size, g, LineParserFor(scan, older)); h.Parsed? ==> NoNewline(h.g.subname)
    decreases |rest|
  {
    if rest != [] {
      var chunk := Chunk(rest, size - 1);
      var q := Handled(LineParserFor(scan, older), CString(chunk), g, |rest[|chunk|..]|);
      ParsedLineName(CString(chunk), g, scan);
      if q.Next? { ParsedNameHasNoNewline(rest[|chunk|..], size, q.g, scan, older); }
    }
  }

  /** A name and an address that the line buffer can hold: C strings, the address one that scans. */
  ghost predicate FitsBuffer(info: EnvInfo, db: Database, scan: PointerScan, size: nat) {
    && db.name.Some? && |DATABASE + db.name.value| + 2 <= size
    && (forall k :: 0 <= k < |db.name.value| ==> db.name.value[k] != NUL)
    && (info.mapaddr.Some? ==> scan(info.mapaddr.value) && Fits(MAPADDR + info.mapaddr.value, size))
  }

  lemma PlainNameIsLoadable(info: EnvInfo, db: Database, scan: PointerScan, size: nat)
    requires FitsBuffer(info, db, scan, size) && NoNewline(db.name)
    ensures Loadable(info, db, scan, size)
  {
    var line := DATABASE + db.name.value;
    forall k | 0 <= k < |line| ensures line[k] != NEWLINE && line[k] != NUL {
      if k >= |DATABASE| { assert line[k] == db.name.value[k - |DATABASE|]; }
    }
  }

  /** The writer puts the name into its header line as it is. A name (a C string that fits the line
      buffer) comes back if and only if it holds no newline. */
  lemma NameComesBackIffNoNewline(asText: bool, info: EnvInfo, db: Database, tail: Bytes, size: nat,
                                  g: Globals, scan: PointerScan, older: OlderBytes)
    requires size >= 64 && NoNewline(g.subname) && FitsBuffer(info, db, scan, size)
    ensures var h := ParseHeader(JoinLines(HeaderLines(asText, info, db)) + tail, size, g, LineParserFor(scan, older));
      (h.Parsed? && h.g.subname == db.name) <==> NoNewline(db.name)
  {
    var header := JoinLines(HeaderLines(asText, info, db)) + tail;
    ParsedNameHasNoNewline(header, size, g, scan, older);
    if NoNewline(db.name) {
      PlainNameIsLoadable(info, db, scan, size);
      ParseHeaderOfDump(asText, info, db, tail, size, g, scan, older);
    }
  }

  /** A database that does not come back under its name. */
  lemma TwoLineName(asText: bool, info: EnvInfo, db: Database, tail: Bytes, size: nat,
                    g: Globals, scan: PointerScan, older: OlderBytes)
    requires size >= 64 && g.subname == None && db.name == Some("a\nb")
    ensures var h := ParseHeader(JoinLines(HeaderLines(asText, info, db)) + tail, size, g, LineParserFor(scan, older));
      h.Parsed? ==> h.g.subname != Some("a\nb")
  {
    ParsedNameHasNoNewline(JoinLines(HeaderLines(asText, info, db)) + tail, size, g, scan, older);
    assert "a\nb"[1] == NEWLINE;
  }
}
