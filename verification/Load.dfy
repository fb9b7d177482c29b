/** The load program: putting records in batched transactions, section after section (`main` of
    mdb_load.c). The storage engine is a parameter: its answers may depend on everything stored. */
module Load {
  import opened CTypes
  import opened Encoding
  import opened LineReader
  import opened Header
  import Dump

  // ---------------------------------------------------------------- the engine

  /** What reaches the environment: a database opened (and created if missing), a record put. */
  datatype Event = Open(name: Option<Bytes>, flags: Flags) | Put(key: Bytes, data: Bytes, flags: Flags)

  datatype PutRc = PutOk | KeyExist | PutError

  /** The engine's answers, given the committed events followed by those of the open transaction.
      `last` is the last key of the database opened last, as `MDB_LAST` reports it. */
  datatype Engine = Engine(open: (seq<Event>, Option<Bytes>, Flags) -> bool,
                           put: (seq<Event>, Bytes, Bytes, Flags) -> PutRc,
                           commit: seq<Event> -> bool,
                           last: seq<Event> -> Bytes)

  /** `-a`, `-N` and `-T` */
  datatype Options = Options(append: bool, noOverwrite: bool, nohdr: bool)

  const BATCH := 100
  /** `MDB_APPEND` */
  const APPEND: Flags := {17}
  /** `MDB_CURRENT|MDB_APPENDDUP` */
  const APPEND_DUP: Flags := {6, 18}
  /** `MDB_NOOVERWRITE|MDB_NODUPDATA` */
  const KEEP_EXISTING: Flags := {4, 5}

  // ---------------------------------------------------------------- one record

  /** The transaction in progress: what is committed, what is not yet, the previous key and the
      number of puts since the last commit. */
  datatype Batch = Batch(committed: seq<Event>, pending: seq<Event>, prevk: Bytes, batch: nat)

  datatype Step = Go(b: Batch) | Stop(committed: seq<Event>)

  function PutFlags(opts: Options): Flags {
    if opts.noOverwrite then KEEP_EXISTING else NO_FLAGS
  }

  function AppFlag(opts: Options, flags: Flags, prevk: Bytes, key: Bytes): Flags {
    if !opts.append then NO_FLAGS
    else if DUPSORT in flags && prevk == key then APPEND_DUP
    else APPEND
  }

  /** All the flags of a put. */
  function FullFlags(opts: Options, flags: Flags, prevk: Bytes, key: Bytes): Flags {
    PutFlags(opts) + AppFlag(opts, flags, prevk, key)
  }

  /** One round of the put loop, after both lines have been read. After a commit in append mode the
      previous key is read back from the database. */
  function PutOne(e: Engine, opts: Options, flags: Flags, b: Batch, r: Dump.Record): Step {
    var put := Put(r.key, r.data, FullFlags(opts, flags, b.prevk, r.key));
    var prevk := if opts.append && DUPSORT in flags then r.key else b.prevk;
    match e.put(b.committed + b.pending, r.key, r.data, put.flags)
    case KeyExist => if opts.noOverwrite then Go(b.(prevk := prevk)) else Stop(b.committed)
    case PutError => Stop(b.committed)
    case PutOk =>
      var pending := b.pending + [put];
      if b.batch + 1 < BATCH then Go(Batch(b.committed, pending, prevk, b.batch + 1))
      else if e.commit(b.committed + pending) then
        Go(Batch(b.committed + pending, [], if opts.append then e.last(b.committed + pending) else prevk, 0))
      else Stop(b.committed)
  }

  // ---------------------------------------------------------------- one section

  /** How a section ends: everything committed and the input at `rest`, or the program gives up with
      only `log` committed. */
  datatype SectionResult = SectionDone(log: seq<Event>, eof: bool, rest: Bytes, ksize: nat, dsize: nat)
                         | SectionFailed(log: seq<Event>)

  /** The final commit of a section. */
  function Finish(e: Engine, b: Batch, eof: bool, rest: Bytes, ksize: nat, dsize: nat): SectionResult {
    if e.commit(b.committed + b.pending) then SectionDone(b.committed + b.pending, eof, rest, ksize, dsize)
    else SectionFailed(b.committed)
  }

  /** A record or the end of a section uses up input; the buffers only grow. */
  lemma ReadShrinks(rest: Bytes, size: nat, asText: bool, nohdr: bool)
    requires size >= 2
    ensures match ReadRecord(rest, size, asText, nohdr)
            case Item(_, rest', size') => |rest'| < |rest| && size' >= size
            case EndOfData(rest') => |rest'| < |rest|
            case EndOfInput => true
  {
    var body := if nohdr || rest == [] then rest else rest[1..];
    var chunk := Chunk(body, size - 1);
    if CString(chunk) != [] {
      AssembleShrinks(CString(chunk), body[|chunk|..], size);
    }
  }

  lemma {:induction false} AssembleShrinks(acc: Bytes, rest: Bytes, size: nat)
    requires acc != [] && size > 0
    ensures var r := Assemble(acc, rest, size); r.Line? ==> |r.rest| <= |rest| && r.size >= size
    decreases |rest|
  {
    if acc[|acc| - 1] != NEWLINE && rest != [] {
      var chunk := Chunk(rest, size);
      AssembleShrinks(acc + CString(chunk), rest[|chunk|..], 2 * size);
    }
  }

  /** The two lines of a record: both, the end of the section instead of a key, or a key alone. */
  datatype Pair = Both(r: Dump.Record, rest: Bytes, ksize: nat, dsize: nat)
                | NoMore(eof: bool, rest: Bytes)
                | KeyOnly

  /** The key goes through the key buffer, the data through the data buffer. */
  ghost function ReadBoth(rest: Bytes, ksize: nat, dsize: nat, asText: bool, nohdr: bool): (p: Pair)
    requires ksize >= 2 && dsize >= 2
    ensures p.Both? ==> |p.rest| < |rest| && p.ksize >= ksize && p.dsize >= dsize
    ensures p.NoMore? && !p.eof ==> |p.rest| < |rest|
  {
    ReadShrinks(rest, ksize, asText, nohdr);
    match ReadRecord(rest, ksize, asText, nohdr)
    case EndOfInput => NoMore(true, [])
    case EndOfData(rest') => NoMore(false, rest')
    case Item(key, rest1, ksize') =>
      ReadShrinks(rest1, dsize, asText, nohdr);
      match ReadRecord(rest1, dsize, asText, nohdr)
      case EndOfInput => KeyOnly
      case EndOfData(_) => KeyOnly
      case Item(data, rest2, dsize') => Both(Dump.Record(key, data), rest2, ksize', dsize')
  }

  /** The record loop. */
  ghost function SectionFrom(e: Engine, opts: Options, g: Globals, b: Batch,
                             rest: Bytes, ksize: nat, dsize: nat): SectionResult
    requires ksize >= 2 && dsize >= 2
    decreases |rest|
  {
    match ReadBoth(rest, ksize, dsize, g.asText, opts.nohdr)
    case NoMore(eof, rest') => Finish(e, b, eof, rest', ksize, dsize)
    case KeyOnly => SectionFailed(b.committed)
    case Both(r, rest', ksize', dsize') =>
      match PutOne(e, opts, g.flags, b, r)
      case Stop(log) => SectionFailed(log)
      case Go(b') => SectionFrom(e, opts, g, b', rest', ksize', dsize')
  }

  /** Opens the section's database in a new transaction and runs the record loop. */
  ghost function Section(e: Engine, opts: Options, g: Globals, log: seq<Event>,
                         rest: Bytes, ksize: nat, dsize: nat): SectionResult
    requires ksize >= 2 && dsize >= 2
  {
    if e.open(log, g.subname, g.flags)
    then SectionFrom(e, opts, g, Batch(log, [Open(g.subname, g.flags)], [], 0), rest, ksize, dsize)
    else SectionFailed(log)
  }

  ghost predicate Buffers(stream: Stream, kbuf: LineBuffer, dbuf: LineBuffer)
    reads stream, kbuf, dbuf
  {
    stream.Valid() && kbuf.Valid() && dbuf.Valid() && kbuf != dbuf && kbuf.data != dbuf.data
  }

  /** Both lines of a record; `more` is false at the end of the section. */
  method ReadPair(stream: Stream, kbuf: LineBuffer, dbuf: LineBuffer, asText: bool, nohdr: bool)
    returns (key: Status, data: Status)
    requires Buffers(stream, kbuf, dbuf)
    modifies stream, kbuf, kbuf.data, dbuf, dbuf.data
    ensures Buffers(stream, kbuf, dbuf)
    ensures kbuf.data == old(kbuf.data) || fresh(kbuf.data)
    ensures dbuf.data == old(dbuf.data) || fresh(dbuf.data)
    ensures match ReadBoth(old(stream.Rest()), old(kbuf.size), old(dbuf.size), asText, nohdr)
            case NoMore(eof, rest) =>
              && !key.Got? && eof == key.InputEnd?
              && (!eof ==> stream.Rest() == rest && kbuf.size == old(kbuf.size) && dbuf.size == old(dbuf.size))
            case KeyOnly => key.Got? && !data.Got?
            case Both(r, rest, ksize, dsize) =>
              && key == Got(r.key) && data == Got(r.data)
              && stream.Rest() == rest && kbuf.size == ksize && dbuf.size == dsize
  {
    data := InputEnd;
    key := ReadLine(stream, kbuf, asText, nohdr);
    if key.Got? {
      data := ReadLine(stream, dbuf, asText, nohdr);
    }
  }

  /** One turn of the record loop: either another batch state to go on with, or the end. */
  datatype Turn = GoOn(b: Batch) | EndSection(ok: bool, eof: bool, log: seq<Event>)

  method LoadOne(stream: Stream, kbuf: LineBuffer, dbuf: LineBuffer, e: Engine, opts: Options, g: Globals, b: Batch)
    returns (t: Turn)
    requires Buffers(stream, kbuf, dbuf)
    modifies stream, kbuf, kbuf.data, dbuf, dbuf.data
    ensures Buffers(stream, kbuf, dbuf)
    ensures kbuf.data == old(kbuf.data) || fresh(kbuf.data)
    ensures dbuf.data == old(dbuf.data) || fresh(dbuf.data)
    ensures t.GoOn? ==> |stream.Rest()| < |old(stream.Rest())|
    ensures var r := SectionFrom(e, opts, g, b, old(stream.Rest()), old(kbuf.size), old(dbuf.size));
      match t
      case GoOn(b') => r == SectionFrom(e, opts, g, b', stream.Rest(), kbuf.size, dbuf.size)
      case EndSection(ok, eof, log) => Reported(r, ok, eof, log, stream, kbuf, dbuf)
  {
    var key, data := ReadPair(stream, kbuf, dbuf, g.asText, opts.nohdr);
    if !key.Got? {
      if e.commit(b.committed + b.pending) {
        return EndSection(true, key.InputEnd?, b.committed + b.pending);
      }
      return EndSection(false, false, b.committed);
    }
    if !data.Got? { return EndSection(false, false, b.committed); }
    match PutOne(e, opts, g.flags, b, Dump.Record(key.value, data.value)) {
      case Stop(log') => return EndSection(false, false, log');
      case Go(b') => return GoOn(b');
    }
  }

  /** The outcome of a section, as the program sees it. */
  ghost predicate Reported(r: SectionResult, ok: bool, eof: bool, log: seq<Event>,
                           stream: Stream, kbuf: LineBuffer, dbuf: LineBuffer)
    requires stream.Valid()
    reads stream, kbuf, dbuf
  {
    match r
    case SectionFailed(log') => !ok && log == log'
    case SectionDone(log', eof', rest, ksize, dsize) =>
      && ok && log == log' && eof == eof'
      && (!eof ==> stream.Rest() == rest && kbuf.size == ksize && dbuf.size == dsize)
  }

  method LoadSection(stream: Stream, kbuf: LineBuffer, dbuf: LineBuffer, e: Engine, opts: Options,
                     g: Globals, log0: seq<Event>)
    returns (ok: bool, eof: bool, log: seq<Event>)
    requires Buffers(stream, kbuf, dbuf)
    modifies stream, kbuf, kbuf.data, dbuf, dbuf.data
    ensures Buffers(stream, kbuf, dbuf)
    ensures kbuf.data == old(kbuf.data) || fresh(kbuf.data)
    ensures dbuf.data == old(dbuf.data) || fresh(dbuf.data)
    ensures Reported(Section(e, opts, g, log0, old(stream.Rest()), old(kbuf.size), old(dbuf.size)),
                     ok, eof, log, stream, kbuf, dbuf)
  {
    if !e.open(log0, g.subname, g.flags) { return false, false, log0; }
    var b := Batch(log0, [Open(g.subname, g.flags)], [], 0);
    ghost var whole := SectionFrom(e, opts, g, b, stream.Rest(), kbuf.size, dbuf.size);
    while true
      invariant Buffers(stream, kbuf, dbuf)
      invariant kbuf.data == old(kbuf.data) || fresh(kbuf.data)
      invariant dbuf.data == old(dbuf.data) || fresh(dbuf.data)
      invariant SectionFrom(e, opts, g, b, stream.Rest(), kbuf.size, dbuf.size) == whole
      decreases |stream.Rest()|
    {
      var t := LoadOne(stream, kbuf, dbuf, e, opts, g, b);
      match t {
        case GoOn(b') => b := b';
        case EndSection(ok', eof', log') => return ok', eof', log';
      }
    }
  }

  // ---------------------------------------------------------------- the whole input

  datatype LoadResult = Loaded(log: seq<Event>, g: Globals) | GaveUp(log: seq<Event>)

  /** The main loop: a header and a section each time round. At the end of a dump this makes one
      more pass over the empty input. */
  ghost function LoadFrom(e: Engine, opts: Options, parse: LineParser, g: Globals, log: seq<Event>,
                          rest: Bytes, ksize: nat, dsize: nat): LoadResult
    requires ksize >= 2 && dsize >= 2
    decreases |rest|
  {
    var h := if opts.nohdr then HeaderResult.Parsed(rest, g)
             else ParseHeader(rest, dsize, g.(flags := NO_FLAGS), parse);
    match h
    case Exited => GaveUp(log)
    case Parsed(rest1, g1) =>
      match Section(e, opts, g1, log, rest1, ksize, dsize)
      case SectionFailed(log') => GaveUp(log')
      case SectionDone(log', eof, rest2, ksize', dsize') =>
        if eof then Loaded(log', g1)
        else
          HeaderShrinks(rest, dsize, g.(flags := NO_FLAGS), parse);
          SectionShrinks(e, opts, g1, Batch(log, [Open(g1.subname, g1.flags)], [], 0), rest1, ksize, dsize);
          LoadFrom(e, opts, parse, g1, log', rest2, ksize', dsize')
  }

  lemma {:induction false} HeaderShrinks(rest: Bytes, size: nat, g: Globals, parse: LineParser)
    requires size >= 2
    ensures var h := ParseHeader(rest, size, g, parse); h.Parsed? ==> |h.rest| <= |rest|
    decreases |rest|
  {
    if rest != [] {
      var chunk := Chunk(rest, size - 1);
      var q := Handled(parse, CString(chunk), g, |rest[|chunk|..]|);
      if q.Next? { HeaderShrinks(rest[|chunk|..], size, q.g, parse); }
    }
  }

  lemma {:induction false} SectionShrinks(e: Engine, opts: Options, g: Globals, b: Batch,
                                          rest: Bytes, ksize: nat, dsize: nat)
    requires ksize >= 2 && dsize >= 2
    ensures var r := SectionFrom(e, opts, g, b, rest, ksize, dsize);
      r.SectionDone? && !r.eof ==> |r.rest| < |rest| && r.ksize >= ksize && r.dsize >= dsize
    decreases |rest|
  {
    var p := ReadBoth(rest, ksize, dsize, g.asText, opts.nohdr);
    if p.Both? {
      var s := PutOne(e, opts, g.flags, b, p.r);
      if s.Go? { SectionShrinks(e, opts, g, s.b, p.rest, p.ksize, p.dsize); }
    }
  }

  method LoadInput(stream: Stream, kbuf: LineBuffer, dbuf: LineBuffer, e: Engine, opts: Options,
                   parse: LineParser, g0: Globals, log0: seq<Event>)
    returns (ok: bool, log: seq<Event>)
    requires Buffers(stream, kbuf, dbuf)
    modifies stream, kbuf, kbuf.data, dbuf, dbuf.data
    ensures match LoadFrom(e, opts, parse, g0, log0, old(stream.Rest()), old(kbuf.size), old(dbuf.size))
            case Loaded(log', _) => ok && log == log'
            case GaveUp(log') => !ok && log == log'
  {
    var g, eof := g0, false;
    ok, log := true, log0;
    ghost var whole := LoadFrom(e, opts, parse, g0, log0, stream.Rest(), kbuf.size, dbuf.size);
    while !eof
      invariant ok && Buffers(stream, kbuf, dbuf)
      invariant kbuf.data == old(kbuf.data) || fresh(kbuf.data)
      invariant dbuf.data == old(dbuf.data) || fresh(dbuf.data)
      invariant whole == if eof then Loaded(log, g)
                         else LoadFrom(e, opts, parse, g, log, stream.Rest(), kbuf.size, dbuf.size)
      decreases !eof, |stream.Rest()|
    {
      ghost var g1 := g;
      ghost var rest := stream.Rest();
      if !opts.nohdr {
        HeaderShrinks(rest, dbuf.size, g.(flags := NO_FLAGS), parse);
        var h := ReadHdr(stream, dbuf, g, parse);
        if h.HeaderExit? { return false, log; }
        g := h.g;
      }
      SectionShrinks(e, opts, g, Batch(log, [Open(g.subname, g.flags)], [], 0), stream.Rest(), kbuf.size, dbuf.size);
      ok, eof, log := LoadSection(stream, kbuf, dbuf, e, opts, g, log);
      if !ok { return; }
    }
  }
}
