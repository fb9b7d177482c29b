/** The dump writer: `text`, `byte`, `dumpit` and the loop over the named databases (mdb_dump.c). */
module Dump {
  import opened CTypes
  import opened Encoding
  import opened LineReader
  import opened Header

  /** A database as `dumpit` sees it through its cursor: the records in cursor order. */
  datatype Record = Record(key: Bytes, data: Bytes)
  datatype Database = Database(name: Option<Bytes>, flags: Flags, pagesize: CUInt, records: seq<Record>)

  /** What `mdb_env_info` reports; the address is given as `%p` prints it. */
  datatype EnvInfo = EnvInfo(mapsize: MdbId, mapaddr: Option<Bytes>, maxreaders: CUInt)

  // ---------------------------------------------------------------- the text of a dump

  ghost function Code(asText: bool, isprint: Locale, v: Bytes): Bytes {
    if asText then TextOf(isprint, v) else HexOf(v)
  }

  ghost function RecordLine(asText: bool, isprint: Locale, v: Bytes): Bytes {
    [' '] + Code(asText, isprint, v) + [NEWLINE]
  }

  ghost function RecordsText(asText: bool, isprint: Locale, rs: seq<Record>): Bytes {
    if rs == [] then []
    else RecordLine(asText, isprint, rs[0].key) + RecordLine(asText, isprint, rs[0].data)
         + RecordsText(asText, isprint, rs[1..])
  }

  function FlagLines(flags: Flags, i: nat): seq<Bytes>
    requires i <= |DBFLAGS|
    decreases |DBFLAGS| - i
  {
    if i == |DBFLAGS| then []
    else (if DBFLAGS[i].bit in flags then [DBFLAGS[i].name + "=1"] else []) + FlagLines(flags, i + 1)
  }

  const DUPLICATES: Bytes := "duplicates=1"
  const PAGESIZE: Bytes := "db_pagesize="

  function FormatLines(asText: bool, name: Option<Bytes>): seq<Bytes> {
    [VERSION + "3", FORMAT + if asText then PRINT_FORMAT else BYTE_FORMAT]
    + if name.Some? then [DATABASE + name.value] else []
  }

  function EnvLines(info: EnvInfo): seq<Bytes> {
    [TYPE + BTREE, MAPSIZE + Decimal(info.mapsize)]
    + (if info.mapaddr.Some? then [MAPADDR + info.mapaddr.value] else [])
    + [MAXREADERS + Decimal(info.maxreaders)]
  }

  function TableLines(flags: Flags): seq<Bytes> {
    (if DUPSORT in flags then [DUPLICATES] else []) + FlagLines(flags, 0)
  }

  function LastLines(pagesize: CUInt): seq<Bytes> {
    [PAGESIZE + Decimal(pagesize), HEADER_END]
  }

  /** The header lines, without their newlines. */
  function HeaderLines(asText: bool, info: EnvInfo, db: Database): seq<Bytes> {
    FormatLines(asText, db.name) + EnvLines(info) + TableLines(db.flags) + LastLines(db.pagesize)
  }

  function JoinLines(lines: seq<Bytes>): Bytes {
    if lines == [] then [] else lines[0] + [NEWLINE] + JoinLines(lines[1..])
  }

  const DATA_END: Bytes := "DATA=END"

  ghost function DatabaseText(asText: bool, isprint: Locale, info: EnvInfo, db: Database): Bytes {
    JoinLines(HeaderLines(asText, info, db)) + RecordsText(asText, isprint, db.records) + DATA_END + [NEWLINE]
  }

  ghost function DumpText(asText: bool, isprint: Locale, info: EnvInfo, dbs: seq<Database>): Bytes {
    if dbs == [] then []
    else DatabaseText(asText, isprint, info, dbs[0]) + DumpText(asText, isprint, info, dbs[1..])
  }

  // ---------------------------------------------------------------- the writer

  class Dumper {
    const asText: bool
    const isprint: Locale
    /** What has been written to the output so far. */
    var out: Bytes

    constructor (asText: bool, isprint: Locale)
      ensures this.asText == asText && this.isprint == isprint && out == []
    {
      this.asText := asText;
      this.isprint := isprint;
      out := [];
    }

    method Putchar(c: Byte)
      modifies this
      ensures out == old(out) + [c]
    {
      out := out + [c];
    }

    method Printf(s: Bytes)
      modifies this
      ensures out == old(out) + s
    {
      out := out + s;
    }

    method PutHex(c: Byte)
      modifies this
      ensures out == old(out) + Hex(c)
    {
      Putchar(HexDigit(c as int / 16));
      Putchar(HexDigit(c as int % 16));
    }

    /** One byte of a print record: as it is, doubled, or as a hex escape. */
    method PutTextByte(c: Byte)
      modifies this
      ensures out == old(out) + TextByte(isprint, c)
    {
      if isprint(c) {
        if c == BACKSLASH { Putchar(BACKSLASH); }
        Putchar(c);
      } else {
        Putchar(BACKSLASH);
        PutHex(c);
      }
    }

    method Text(v: Bytes)
      modifies this
      ensures out == old(out) + [' '] + TextOf(isprint, v) + [NEWLINE]
    {
      Putchar(' ');
      var c := 0;
      while c < |v|
        invariant 0 <= c <= |v|
        invariant out + TextOf(isprint, v[c..]) == old(out) + [' '] + TextOf(isprint, v)
      {
        ghost var before := out;
        assert v[c..][1..] == v[c + 1..];
        PutTextByte(v[c]);
        Regroup(before, TextByte(isprint, v[c]), TextOf(isprint, v[c + 1..]));
        c := c + 1;
      }
      assert v[c..] == [] && out + [] == out;
      Putchar(NEWLINE);
    }

    method ByteLine(v: Bytes)
      modifies this
      ensures out == old(out) + [' '] + HexOf(v) + [NEWLINE]
    {
      Putchar(' ');
      var c := 0;
      while c < |v|
        invariant 0 <= c <= |v|
        invariant out + HexOf(v[c..]) == old(out) + [' '] + HexOf(v)
      {
        ghost var before := out;
        assert v[c..][1..] == v[c + 1..];
        PutHex(v[c]);
        Regroup(before, Hex(v[c]), HexOf(v[c + 1..]));
        c := c + 1;
      }
      assert v[c..] == [] && out + [] == out;
      Putchar(NEWLINE);
    }

    method PutRecord(v: Bytes)
      modifies this
      ensures out == old(out) + RecordLine(asText, isprint, v)
    {
      ghost var before := out;
      if asText { Text(v); } else { ByteLine(v); }
      Regroup(before, [' '] + Code(asText, isprint, v), [NEWLINE]);
      Regroup(before, [' '], Code(asText, isprint, v));
    }

    /** Prints one more line of the header. */
    method PutLine(line: Bytes, ghost start: Bytes, ghost lines: seq<Bytes>)
      requires out == start + JoinLines(lines)
      modifies this
      ensures out == start + JoinLines(lines + [line])
    {
      Printf(line + [NEWLINE]);
      JoinOneMore(lines, line);
      Regroup(start, JoinLines(lines), line + [NEWLINE]);
    }

    method PutFormat(name: Option<Bytes>)
      modifies this
      ensures out == old(out) + JoinLines(FormatLines(asText, name))
    {
      ghost var start := out;
      ghost var first, second := VERSION + "3", FORMAT + if asText then PRINT_FORMAT else BYTE_FORMAT;
      assert out == start + JoinLines([]);
      PutLine(VERSION + "3", start, []);
      assert [] + [first] == [first];
      PutLine(FORMAT + if asText then PRINT_FORMAT else BYTE_FORMAT, start, [first]);
      assert [first] + [second] == [first, second];
      if name.Some? {
        PutLine(DATABASE + name.value, start, [first, second]);
      }
      assert name.None? ==> FormatLines(asText, name) == [first, second];
    }

    method PutEnv(info: EnvInfo)
      modifies this
      ensures out == old(out) + JoinLines(EnvLines(info))
    {
      ghost var start := out;
      ghost var lines: seq<Bytes> := [TYPE + BTREE];
      assert out == start + JoinLines([]);
      PutLine(TYPE + BTREE, start, []);
      assert [] + [TYPE + BTREE] == lines;
      PutLine(MAPSIZE + Decimal(info.mapsize), start, lines);
      lines := lines + [MAPSIZE + Decimal(info.mapsize)];
      if info.mapaddr.Some? {
        PutLine(MAPADDR + info.mapaddr.value, start, lines);
        lines := lines + [MAPADDR + info.mapaddr.value];
      }
      PutLine(MAXREADERS + Decimal(info.maxreaders), start, lines);
      assert EnvLines(info) == lines + [MAXREADERS + Decimal(info.maxreaders)];
    }

    /** One round of the loop over the flag table. */
    method PutFlag(flags: Flags, i: nat, ghost start: Bytes, ghost lines: seq<Bytes>) returns (ghost lines': seq<Bytes>)
      requires i < |DBFLAGS| && out == start + JoinLines(lines)
      modifies this
      ensures out == start + JoinLines(lines')
      ensures lines' + FlagLines(flags, i + 1) == lines + FlagLines(flags, i)
    {
      FlagLinesStep(flags, i, lines);
      lines' := lines;
      if DBFLAGS[i].bit in flags {
        PutLine(DBFLAGS[i].name + "=1", start, lines);
        lines' := lines + [DBFLAGS[i].name + "=1"];
      }
    }

    method PutFlags(flags: Flags)
      modifies this
      ensures out == old(out) + JoinLines(TableLines(flags))
    {
      ghost var start, all := out, TableLines(flags);
      ghost var lines: seq<Bytes> := [];
      assert out == start + JoinLines(lines);
      if DUPSORT in flags {
        PutLine(DUPLICATES, start, lines);
        lines := [DUPLICATES];
      }
      assert lines + FlagLines(flags, 0) == all;
      var i := 0;
      while i < |DBFLAGS|
        invariant 0 <= i <= |DBFLAGS|
        invariant lines + FlagLines(flags, i) == all
        invariant out == start + JoinLines(lines)
      {
        lines := PutFlag(flags, i, start, lines);
        i := i + 1;
      }
      assert lines + [] == lines;
    }

    method PutHeader(info: EnvInfo, db: Database)
      modifies this
      ensures out == old(out) + JoinLines(HeaderLines(asText, info, db))
    {
      ghost var start := out;
      ghost var a, b, c := FormatLines(asText, db.name), EnvLines(info), TableLines(db.flags);
      PutFormat(db.name);
      PutEnv(info);
      JoinAppend(a, b);
      Regroup(start, JoinLines(a), JoinLines(b));
      PutFlags(db.flags);
      JoinAppend(a + b, c);
      Regroup(start, JoinLines(a + b), JoinLines(c));
      PutLine(PAGESIZE + Decimal(db.pagesize), start, a + b + c);
      PutLine(HEADER_END, start, a + b + c + [PAGESIZE + Decimal(db.pagesize)]);
      assert a + b + c + [PAGESIZE + Decimal(db.pagesize)] + [HEADER_END] == HeaderLines(asText, info, db);
    }

    method PutRecords(rs: seq<Record>)
      modifies this
      ensures out == old(out) + RecordsText(asText, isprint, rs)
    {
      ghost var start := out;
      var i := 0;
      while i < |rs|
        invariant 0 <= i <= |rs|
        invariant out + RecordsText(asText, isprint, rs[i..]) == start + RecordsText(asText, isprint, rs)
      {
        ghost var before := out;
        ghost var k, d := RecordLine(asText, isprint, rs[i].key), RecordLine(asText, isprint, rs[i].data);
        ghost var tail := RecordsText(asText, isprint, rs[i + 1..]);
        assert rs[i..][1..] == rs[i + 1..];
        PutRecord(rs[i].key);
        PutRecord(rs[i].data);
        RegroupFour(before, k, d, tail);
        i := i + 1;
      }
      assert rs[i..] == [] && out + [] == out;
    }

    /** `dumpit` */
    method DumpIt(info: EnvInfo, db: Database)
      modifies this
      ensures out == old(out) + DatabaseText(asText, isprint, info, db)
    {
      ghost var start := out;
      PutHeader(info, db);
      PutRecords(db.records);
      Printf(DATA_END + [NEWLINE]);
      RegroupFour(start, JoinLines(HeaderLines(asText, info, db)),
                  RecordsText(asText, isprint, db.records), DATA_END + [NEWLINE]);
      Regroup(JoinLines(HeaderLines(asText, info, db)) + RecordsText(asText, isprint, db.records), DATA_END, [NEWLINE]);
    }

    /** The loop of `main` over the databases, for `-a` all the named ones. */
    method DumpAll(info: EnvInfo, dbs: seq<Database>)
      modifies this
      ensures out == old(out) + DumpText(asText, isprint, info, dbs)
    {
      var i := 0;
      while i < |dbs|
        invariant 0 <= i <= |dbs|
        invariant out + DumpText(asText, isprint, info, dbs[i..])
               == old(out) + DumpText(asText, isprint, info, dbs)
      {
        ghost var before := out;
        assert dbs[i..][1..] == dbs[i + 1..];
        DumpIt(info, dbs[i]);
        Regroup(before, DatabaseText(asText, isprint, info, dbs[i]), DumpText(asText, isprint, info, dbs[i + 1..]));
        i := i + 1;
      }
      assert dbs[i..] == [] && out + [] == out;
    }
  }

  lemma Regroup(a: Bytes, b: Bytes, c: Bytes)
    ensures a + b + c == a + (b + c)
  {
  }

  lemma RegroupFour(a: Bytes, b: Bytes, c: Bytes, d: Bytes)
    ensures a + b + c + d == a + (b + c + d)
  {
  }

  lemma {:induction false} JoinOneMore(lines: seq<Bytes>, line: Bytes)
    ensures JoinLines(lines + [line]) == JoinLines(lines) + (line + [NEWLINE])
  {
    if lines == [] {
      assert ([] + [line])[1..] == [];
    } else {
      assert (lines + [line])[1..] == lines[1..] + [line];
      JoinOneMore(lines[1..], line);
    }
  }

  lemma FlagLinesStep(flags: Flags, i: nat, lines: seq<Bytes>)
    requires i < |DBFLAGS|
    ensures lines + FlagLines(flags, i)
         == (if DBFLAGS[i].bit in flags then lines + [DBFLAGS[i].name + "=1"] else lines) + FlagLines(flags, i + 1)
  {
  }

  lemma {:induction false} JoinAppend(a: seq<Bytes>, b: seq<Bytes>)
    ensures JoinLines(a + b) == JoinLines(a) + JoinLines(b)
  {
    if a == [] {
      assert a + b == b;
    } else {
      assert (a + b)[1..] == a[1..] + b;
      JoinAppend(a[1..], b);
    }
  }
}
