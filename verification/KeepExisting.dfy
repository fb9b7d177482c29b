/** What `-N` means for the databases: what is stored already stays, and of the input the first record of
    each new key is added (mdb_load.c). */
module KeepExisting {
  import opened CTypes
  import opened Encoding
  import opened LineReader
  import opened Header
  import opened Load
  import opened Batching
  import opened CommitLog
  import opened WholeRun
  import Dump

  // ---------------------------------------------------------------- what is stored stays

  /** The open database has a value for the key. */
  ghost predicate Bound(env: Environment, key: Bytes) {
    env.current in env.dbs && exists p :: p in env.dbs[env.current].pairs && p.key == key
  }

  /** `MDB_NOOVERWRITE`: a bound key is not put. */
  ghost predicate RefusesBound(e: Engine, env: Environment) {
    forall log, k, d, f :: 4 in f && Bound(Replay(env, log), k) ==> e.put(log, k, d, f) != PutOk
  }

  /** Everything stored in `a` is stored in `b`. */
  ghost predicate Keeps(a: Environment, b: Environment) {
    forall name <- a.dbs ::
      name in b.dbs && a.dbs[name].flags == b.dbs[name].flags && a.dbs[name].pairs <= b.dbs[name].pairs
  }

  /** The same for the environments that two logs make of `env`. */
  ghost predicate LogKeeps(env: Environment, a: seq<Event>, b: seq<Event>) {
    Keeps(Replay(env, a), Replay(env, b))
  }

  lemma KeepsTrans(env: Environment, a: seq<Event>, b: seq<Event>, c: seq<Event>)
    requires LogKeeps(env, a, b) && LogKeeps(env, b, c)
    ensures LogKeeps(env, a, c)
  {
  }

  lemma OpenKeeps(env: Environment, log: seq<Event>, name: Option<Bytes>, flags: Flags)
    ensures LogKeeps(env, log, log + [Open(name, flags)])
  {
    ReplayAppend(env, log, [Open(name, flags)]);
    ReplayOne(Replay(env, log), Open(name, flags));
  }

  lemma PutKeeps(env: Environment, log: seq<Event>, key: Bytes, data: Bytes, flags: Flags)
    requires !Bound(Replay(env, log), key)
    ensures LogKeeps(env, log, log + [Put(key, data, flags)])
  {
    ReplayAppend(env, log, [Put(key, data, flags)]);
    ReplayOne(Replay(env, log), Put(key, data, flags));
  }

  /** Both what is committed and what is pending keep what `log0` has stored. */
  ghost predicate BatchKeeps(env: Environment, log0: seq<Event>, b: Batch) {
    LogKeeps(env, log0, b.committed) && LogKeeps(env, log0, b.committed + b.pending)
  }

  lemma PutOneKeeps(e: Engine, opts: Options, flags: Flags, b: Batch, r: Dump.Record,
                    env: Environment, log0: seq<Event>)
    requires opts.noOverwrite && RefusesBound(e, env) && BatchKeeps(env, log0, b)
    ensures match PutOne(e, opts, flags, b, r)
            case Go(b') => BatchKeeps(env, log0, b')
            case Stop(log) => LogKeeps(env, log0, log)
  {
    var f, log := FullFlags(opts, flags, b.prevk, r.key), b.committed + b.pending;
    FlagsHaveBits(opts, flags, b.prevk, r.key);
    if e.put(log, r.key, r.data, f) == PutOk {
      PutKeeps(env, log, r.key, r.data, f);
      KeepsTrans(env, log0, log, log + [Put(r.key, r.data, f)]);
      var all := b.committed + (b.pending + [Put(r.key, r.data, f)]);
      assert log + [Put(r.key, r.data, f)] == all && all + [] == all;
    }
  }

  lemma {:induction false} SectionFromKeeps(e: Engine, opts: Options, g: Globals, b: Batch, rest: Bytes,
                                            ksize: nat, dsize: nat, env: Environment, log0: seq<Event>)
    requires ksize >= 2 && dsize >= 2
    requires opts.noOverwrite && RefusesBound(e, env) && BatchKeeps(env, log0, b)
    ensures LogKeeps(env, log0, SectionFrom(e, opts, g, b, rest, ksize, dsize).log)
    decreases |rest|
  {
    var p := ReadBoth(rest, ksize, dsize, g.asText, opts.nohdr);
    if p.Both? {
      PutOneKeeps(e, opts, g.flags, b, p.r, env, log0);
      var s := PutOne(e, opts, g.flags, b, p.r);
      if s.Go? { SectionFromKeeps(e, opts, g, s.b, p.rest, p.ksize, p.dsize, env, log0); }
    }
  }

  lemma SectionKeeps(e: Engine, opts: Options, g: Globals, log0: seq<Event>, rest: Bytes,
                     ksize: nat, dsize: nat, env: Environment)
    requires ksize >= 2 && dsize >= 2 && opts.noOverwrite && RefusesBound(e, env)
    ensures LogKeeps(env, log0, Section(e, opts, g, log0, rest, ksize, dsize).log)
  {
    var b := Batch(log0, [Open(g.subname, g.flags)], [], 0);
    OpenKeeps(env, log0, g.subname, g.flags);
    SectionFromKeeps(e, opts, g, b, rest, ksize, dsize, env, log0);
  }

  /** With `-N` and an engine that refuses to put bound keys under `MDB_NOOVERWRITE`, whatever the input
      and however the run ends, every pair stored before is still stored. */
  lemma {:induction false} LoadKeepsExisting(e: Engine, opts: Options, parse: LineParser, g: Globals, log: seq<Event>,
                                             rest: Bytes, ksize: nat, dsize: nat, env: Environment)
    requires ksize >= 2 && dsize >= 2 && opts.noOverwrite && RefusesBound(e, env)
    ensures LogKeeps(env, log, LoadFrom(e, opts, parse, g, log, rest, ksize, dsize).log)
    decreases |rest|
  {
    var h := if opts.nohdr then HeaderResult.Parsed(rest, g)
             else ParseHeader(rest, dsize, g.(flags := NO_FLAGS), parse);
    if h.Parsed? {
      HeaderShrinks(rest, dsize, g.(flags := NO_FLAGS), parse);
      SectionKeeps(e, opts, h.g, log, h.rest, ksize, dsize, env);
      SectionShrinks(e, opts, h.g, Batch(log, [Open(h.g.subname, h.g.flags)], [], 0), h.rest, ksize, dsize);
      var s := Section(e, opts, h.g, log, h.rest, ksize, dsize);
      if s.SectionDone? && !s.eof {
        LoadKeepsExisting(e, opts, parse, h.g, s.log, s.rest, s.ksize, s.dsize, env);
        KeepsTrans(env, log, s.log, LoadFrom(e, opts, parse, h.g, s.log, s.rest, s.ksize, s.dsize).log);
      }
    }
  }

  // ---------------------------------------------------------------- what is added

  /** An engine that stores what it is asked to, except bound keys under `MDB_NOOVERWRITE`. */
  ghost predicate Stores(e: Engine, env: Environment) {
    && (forall log, n, f :: e.open(log, n, f))
    && (forall log, k, d, f :: e.put(log, k, d, f) == if 4 in f && Bound(Replay(env, log), k) then KeyExist else PutOk)
    && (forall log :: e.commit(log))
  }

  /** There is such an engine, and it refuses bound keys. */
  lemma SomeEngineStores(env: Environment) returns (e: Engine)
    ensures Stores(e, env) && RefusesBound(e, env)
  {
    e := Engine((_, _, _) => true, (log, k, _, f) => if 4 in f && Bound(Replay(env, log), k) then KeyExist else PutOk,
                _ => true, _ => []);
  }

  ghost predicate KeyIn(pairs: set<Dump.Record>, key: Bytes) {
    exists p :: p in pairs && p.key == key
  }

  /** Record `i` has a key that is not bound yet, and is the first one with it. */
  ghost predicate IsNew(was: set<Dump.Record>, rs: seq<Dump.Record>, i: int) {
    0 <= i < |rs| && !KeyIn(was, rs[i].key) && forall j :: 0 <= j < i ==> rs[j].key != rs[i].key
  }

  ghost function NewPairs(was: set<Dump.Record>, rs: seq<Dump.Record>): set<Dump.Record> {
    set i | 0 <= i < |rs| && IsNew(was, rs, i) :: rs[i]
  }

  lemma NewPairsOneMore(was: set<Dump.Record>, rs: seq<Dump.Record>, r: Dump.Record)
    ensures NewPairs(was, rs + [r])
         == NewPairs(was, rs) + if KeyIn(was + NewPairs(was, rs), r.key) then {} else {r}
  {
    var all, added, more := rs + [r], NewPairs(was, rs), NewPairs(was, rs + [r]);
    forall i | 0 <= i < |rs| ensures IsNew(was, all, i) == IsNew(was, rs, i) {
      assert forall j :: 0 <= j <= i ==> all[j] == rs[j];
    }
    LastIsNew(was, rs, r);
    forall p ensures p in more <==> p in added || (p == r && IsNew(was, all, |rs|)) {
      if p in added {
        var i :| 0 <= i < |rs| && IsNew(was, rs, i) && rs[i] == p;
        assert IsNew(was, all, i) && all[i] == p;
      }
      if p == r && IsNew(was, all, |rs|) { assert all[|rs|] == p; }
    }
  }

  lemma LastIsNew(was: set<Dump.Record>, rs: seq<Dump.Record>, r: Dump.Record)
    ensures IsNew(was, rs + [r], |rs|) <==> !KeyIn(was + NewPairs(was, rs), r.key)
  {
    var all, pairs := rs + [r], was + NewPairs(was, rs);
    if KeyIn(was, r.key) {
      var p :| p in was && p.key == r.key;
      assert p in pairs;
    }
    forall j | 0 <= j < |rs| && rs[j].key == r.key ensures KeyIn(pairs, r.key) {
      KeyOfRecord(was, rs, j);
    }
    if KeyIn(pairs, r.key) {
      var p :| p in pairs && p.key == r.key;
      if p !in was {
        var j :| 0 <= j < |rs| && IsNew(was, rs, j) && rs[j] == p;
        assert all[j] == p;
      }
    }
  }

  /** The key of every record is bound, before or by a new pair. */
  lemma KeyOfRecord(was: set<Dump.Record>, rs: seq<Dump.Record>, j: nat)
    requires j < |rs|
    ensures KeyIn(was + NewPairs(was, rs), rs[j].key)
  {
    if KeyIn(was, rs[j].key) {
      var p :| p in was && p.key == rs[j].key;
      assert p in was + NewPairs(was, rs);
    } else {
      var i := FirstWithKey(rs, rs[j].key, j);
      assert IsNew(was, rs, i);
      assert rs[i] in NewPairs(was, rs);
    }
  }

  lemma {:induction false} FirstWithKey(rs: seq<Dump.Record>, key: Bytes, j: nat) returns (i: nat)
    requires j < |rs| && rs[j].key == key
    ensures i <= j && rs[i].key == key && forall m :: 0 <= m < i ==> rs[m].key != key
  {
    i := j;
    if exists m :: 0 <= m < j && rs[m].key == key {
      var m: nat :| m < j && rs[m].key == key;
      i := FirstWithKey(rs, key, m);
    }
  }

  /** The database `db0` of `before` has been opened, and has the new pairs of `rs` as well. */
  ghost predicate HasAdded(before: Environment, name: Option<Bytes>, db0: Stored, rs: seq<Dump.Record>,
                           after: Environment) {
    after == Environment(name, before.dbs[name := db0.(pairs := db0.pairs + NewPairs(db0.pairs, rs))])
  }

  lemma PutAdds(before: Environment, name: Option<Bytes>, db0: Stored, rs: seq<Dump.Record>, r: Dump.Record,
                after: Environment, flags: Flags)
    requires HasAdded(before, name, db0, rs, after)
    ensures Bound(after, r.key) ==> HasAdded(before, name, db0, rs + [r], after)
    ensures !Bound(after, r.key) ==> HasAdded(before, name, db0, rs + [r], Apply(after, Put(r.key, r.data, flags)))
  {
    var pairs := db0.pairs + NewPairs(db0.pairs, rs);
    NewPairsOneMore(db0.pairs, rs, r);
    assert Bound(after, r.key) <==> KeyIn(pairs, r.key);
    assert NewPairs(db0.pairs, rs) + {} == NewPairs(db0.pairs, rs);
    if !Bound(after, r.key) {
      UnboundPutAdds(Stored(db0.flags, pairs), r);
      assert pairs + {r} == db0.pairs + NewPairs(db0.pairs, rs + [r]);
    }
  }

  lemma UnboundPutAdds(db: Stored, r: Dump.Record)
    requires !KeyIn(db.pairs, r.key)
    ensures PutInto(db, r) == db.(pairs := db.pairs + {r})
  {
  }

  lemma PutOneAdds(e: Engine, opts: Options, flags: Flags, b: Batch, r: Dump.Record, env: Environment,
                   before: Environment, name: Option<Bytes>, db0: Stored, rs: seq<Dump.Record>)
    requires opts.noOverwrite && Stores(e, env)
    requires HasAdded(before, name, db0, rs, Replay(env, b.committed + b.pending))
    ensures var s := PutOne(e, opts, flags, b, r);
      s.Go? && HasAdded(before, name, db0, rs + [r], Replay(env, s.b.committed + s.b.pending))
  {
    var log, put := b.committed + b.pending, Put(r.key, r.data, FullFlags(opts, flags, b.prevk, r.key));
    FlagsHaveBits(opts, flags, b.prevk, r.key);
    PutAdds(before, name, db0, rs, r, Replay(env, log), put.flags);
    ReplayAppend(env, log, [put]);
    ReplayOne(Replay(env, log), put);
    var all := b.committed + (b.pending + [put]);
    assert log + [put] == all && all + [] == all;
  }

  lemma {:induction false} PutAllAdds(e: Engine, opts: Options, flags: Flags, b: Batch, more: seq<Dump.Record>,
                                      env: Environment, before: Environment, name: Option<Bytes>, db0: Stored,
                                      rs: seq<Dump.Record>)
    requires opts.noOverwrite && Stores(e, env)
    requires HasAdded(before, name, db0, rs, Replay(env, b.committed + b.pending))
    ensures var ps := PutAll(e, opts, flags, b, more);
      ps.AllPut? && HasAdded(before, name, db0, rs + more, Replay(env, ps.b.committed + ps.b.pending))
    decreases |more|
  {
    if more == [] {
      assert rs + more == rs;
    } else {
      PutOneAdds(e, opts, flags, b, more[0], env, before, name, db0, rs);
      assert rs + [more[0]] + more[1..] == rs + more;
      PutAllAdds(e, opts, flags, PutOne(e, opts, flags, b, more[0]).b, more[1..], env, before, name, db0,
                 rs + [more[0]]);
    }
  }

  lemma NothingAdded(env: Environment, log0: seq<Event>, name: Option<Bytes>, flags: Flags, db0: Stored)
    requires db0 == if name in Replay(env, log0).dbs then Replay(env, log0).dbs[name] else Stored(flags, {})
    ensures HasAdded(Replay(env, log0), name, db0, [], Replay(env, log0 + [Open(name, flags)]))
  {
    var before := Replay(env, log0);
    ReplayAppend(env, log0, [Open(name, flags)]);
    ReplayOne(before, Open(name, flags));
    assert NewPairs(db0.pairs, []) == {} && db0.pairs + {} == db0.pairs;
    if name in before.dbs { assert before.dbs[name := db0] == before.dbs; }
  }

  /** With `-N` and such an engine a section ends well, and adds to its database exactly the first record
      of each key that was not bound before; the other databases are as they were. */
  lemma SectionAddsNewKeys(e: Engine, opts: Options, g: Globals, log0: seq<Event>, rest: Bytes,
                           ksize: nat, dsize: nat, env: Environment)
    requires ksize >= 2 && dsize >= 2 && opts.noOverwrite && Stores(e, env)
    requires ReadAll(rest, ksize, dsize, g.asText, opts.nohdr).ending != DataMissing
    ensures var rs, before := ReadAll(rest, ksize, dsize, g.asText, opts.nohdr).records, Replay(env, log0);
      var db0 := if g.subname in before.dbs then before.dbs[g.subname] else Stored(g.flags, {});
      var r := Section(e, opts, g, log0, rest, ksize, dsize);
      r.SectionDone? && HasAdded(before, g.subname, db0, rs, Replay(env, r.log))
  {
    var all, before := ReadAll(rest, ksize, dsize, g.asText, opts.nohdr), Replay(env, log0);
    var db0 := if g.subname in before.dbs then before.dbs[g.subname] else Stored(g.flags, {});
    var b := Batch(log0, [Open(g.subname, g.flags)], [], 0);
    NothingAdded(env, log0, g.subname, g.flags, db0);
    SectionReadsThenPuts(e, opts, g, b, rest, ksize, dsize);
    PutAllAdds(e, opts, g.flags, b, all.records, env, before, g.subname, db0, []);
    assert [] + all.records == all.records;
    EndsWell(e, PutAll(e, opts, g.flags, b, all.records), all);
  }

  lemma EndsWell(e: Engine, ps: Puts, all: Records)
    requires ps.AllPut? && all.ending != DataMissing && forall log :: e.commit(log)
    ensures var r := AfterPuts(e, ps, all); r.SectionDone? && r.log == ps.b.committed + ps.b.pending
  {
  }

  /** Without `-N` a record the engine reports as existing stops the section, and so does an error with
      any options. */
  lemma RefusedPutStops(e: Engine, opts: Options, g: Globals, log0: seq<Event>, rest: Bytes, ksize: nat, dsize: nat)
    requires ksize >= 2 && dsize >= 2
    requires ReadAll(rest, ksize, dsize, g.asText, opts.nohdr).records != []
    requires forall log, k, d, f :: e.put(log, k, d, f) == if opts.noOverwrite then PutError else KeyExist
    ensures Section(e, opts, g, log0, rest, ksize, dsize) == SectionFailed(log0)
  {
    var b := Batch(log0, [Open(g.subname, g.flags)], [], 0);
    SectionReadsThenPuts(e, opts, g, b, rest, ksize, dsize);
  }
}
