/** What a dump says, character by character (`dumpit` of mdb_dump.c). */
module DumpLines {
  import opened CTypes
  import opened Encoding
  import opened Header
  import opened Dump
  import opened HeaderLines

  // ---------------------------------------------------------------- lists of texts

  lemma {:induction false} FlattenAppend(a: seq<Bytes>, b: seq<Bytes>)
    ensures Flatten(a + b) == Flatten(a) + Flatten(b)
  {
    if a == [] {
      assert a + b == b;
    } else {
      assert (a + b)[1..] == a[1..] + b;
      FlattenAppend(a[1..], b);
    }
  }

  /** One more line in front of others. */
  lemma LineInFront(line: Bytes, text: Bytes, lines: seq<Bytes>, parts: seq<Bytes>)
    requires JoinLines(lines) == Flatten(parts) && text == line + [NEWLINE]
    ensures JoinLines([line] + lines) == Flatten([text] + parts)
  {
    assert ([line] + lines)[1..] == lines && ([text] + parts)[1..] == parts;
  }

  /** No line in front of others. */
  lemma NoLineInFront(lines: seq<Bytes>, parts: seq<Bytes>)
    requires JoinLines(lines) == Flatten(parts)
    ensures JoinLines([] + lines) == Flatten([[]] + parts)
  {
    var none: seq<Bytes> := [];
    assert none + lines == lines && ([[]] + parts)[1..] == parts;
  }

  /** The lines of two stretches, one behind the other. */
  lemma LinesBehind(a: seq<Bytes>, b: seq<Bytes>, p: seq<Bytes>, q: seq<Bytes>)
    requires JoinLines(a) == Flatten(p) && JoinLines(b) == Flatten(q)
    ensures JoinLines(a + b) == Flatten(p + q)
  {
    JoinAppend(a, b);
    FlattenAppend(p, q);
  }

  // ---------------------------------------------------------------- the header

  ghost function FormatParts(asText: bool, name: Option<Bytes>): seq<Bytes> {
    ["VERSION=3\n", if asText then "format=print\n" else "format=bytevalue\n",
     if name.Some? then "database=" + name.value + "\n" else []]
  }

  ghost function EnvParts(info: EnvInfo): seq<Bytes> {
    ["type=btree\n", "mapsize=" + Decimal(info.mapsize) + "\n",
     if info.mapaddr.Some? then "mapaddr=" + info.mapaddr.value + "\n" else [],
     "maxreaders=" + Decimal(info.maxreaders) + "\n"]
  }

  /** The flags by the numbers of their bits. */
  ghost function FlagParts(flags: Flags): seq<Bytes> {
    seq(6, i requires 0 <= i < 6 => if i + 1 in flags then FLAG_NAMES[i + 1] + "=1\n" else [])
  }

  ghost function TableParts(flags: Flags): seq<Bytes> {
    [if 2 in flags then "duplicates=1\n" else []] + FlagParts(flags)
  }

  ghost function LastParts(pagesize: CUInt): seq<Bytes> {
    ["db_pagesize=" + Decimal(pagesize) + "\n", "HEADER=END\n"]
  }

  lemma OptionalLine(cond: bool, line: Bytes, text: Bytes, lines: seq<Bytes>, parts: seq<Bytes>)
    requires JoinLines(lines) == Flatten(parts) && text == line + [NEWLINE]
    ensures JoinLines((if cond then [line] else []) + lines) == Flatten([if cond then text else []] + parts)
  {
    if cond { LineInFront(line, text, lines, parts); } else { NoLineInFront(lines, parts); }
  }

  lemma TwoLines(first: Bytes, second: Bytes, a: Bytes, b: Bytes, lines: seq<Bytes>, parts: seq<Bytes>)
    requires JoinLines(lines) == Flatten(parts) && a == first + [NEWLINE] && b == second + [NEWLINE]
    ensures JoinLines([first, second] + lines) == Flatten([a, b] + parts)
  {
    LineInFront(second, b, lines, parts);
    LineInFront(first, a, [second] + lines, [b] + parts);
    assert [first] + ([second] + lines) == [first, second] + lines;
    assert [a] + ([b] + parts) == [a, b] + parts;
  }

  lemma FormatLineText(asText: bool)
    ensures FORMAT + (if asText then PRINT_FORMAT else BYTE_FORMAT) + [NEWLINE]
         == if asText then "format=print\n" else "format=bytevalue\n"
  {
  }

  lemma NameText(name: Option<Bytes>)
    ensures JoinLines(if name.Some? then [DATABASE + name.value] else [])
         == Flatten([if name.Some? then "database=" + name.value + "\n" else []])
  {
    if name.Some? { LineInFront(DATABASE + name.value, "database=" + name.value + "\n", [], []); }
    else { NoLineInFront([], []); }
    var lines: seq<Bytes> := if name.Some? then [DATABASE + name.value] else [];
    var part: Bytes := if name.Some? then "database=" + name.value + "\n" else [];
    assert lines + [] == lines && [part] + [] == [part];
  }

  lemma FormatText(asText: bool, name: Option<Bytes>)
    ensures JoinLines(FormatLines(asText, name)) == Flatten(FormatParts(asText, name))
  {
    var parts := FormatParts(asText, name);
    FormatLineText(asText);
    NameText(name);
    TwoLines(VERSION + "3", FORMAT + if asText then PRINT_FORMAT else BYTE_FORMAT, parts[0], parts[1],
             if name.Some? then [DATABASE + name.value] else [], [parts[2]]);
    assert parts == [parts[0], parts[1]] + [parts[2]];
  }

  lemma AddressText(addr: Option<Bytes>, lines: seq<Bytes>, parts: seq<Bytes>)
    requires JoinLines(lines) == Flatten(parts)
    ensures JoinLines((if addr.Some? then [MAPADDR + addr.value] else []) + lines)
         == Flatten([if addr.Some? then "mapaddr=" + addr.value + "\n" else []] + parts)
  {
    if addr.Some? { LineInFront(MAPADDR + addr.value, "mapaddr=" + addr.value + "\n", lines, parts); }
    else { NoLineInFront(lines, parts); }
  }

  lemma EnvText(info: EnvInfo)
    ensures JoinLines(EnvLines(info)) == Flatten(EnvParts(info))
  {
    var parts := EnvParts(info);
    var last: seq<Bytes> := [MAXREADERS + Decimal(info.maxreaders)];
    var addr: seq<Bytes> := if info.mapaddr.Some? then [MAPADDR + info.mapaddr.value] else [];
    LineInFront(MAXREADERS + Decimal(info.maxreaders), parts[3], [], []);
    assert last + [] == last && [parts[3]] + [] == [parts[3]];
    AddressText(info.mapaddr, last, [parts[3]]);
    TwoLines(TYPE + BTREE, MAPSIZE + Decimal(info.mapsize), parts[0], parts[1], addr + last, [parts[2]] + [parts[3]]);
    assert EnvLines(info) == [TYPE + BTREE, MAPSIZE + Decimal(info.mapsize)] + (addr + last);
    assert parts == [parts[0], parts[1]] + ([parts[2]] + [parts[3]]);
  }

  lemma FlagPart(flags: Flags, i: nat)
    requires i < |DBFLAGS|
    ensures FlagParts(flags)[i..]
         == [if DBFLAGS[i].bit in flags then DBFLAGS[i].name + "=1\n" else []] + FlagParts(flags)[i + 1..]
  {
    FlagOfTable(i + 1);
  }

  lemma {:induction false} FlagText(flags: Flags, i: nat)
    requires i <= |DBFLAGS|
    ensures JoinLines(FlagLines(flags, i)) == Flatten(FlagParts(flags)[i..])
    decreases |DBFLAGS| - i
  {
    if i < |DBFLAGS| {
      FlagText(flags, i + 1);
      FlagPart(flags, i);
      var name := DBFLAGS[i].name;
      OneText(name);
      OptionalLine(DBFLAGS[i].bit in flags, name + "=1", name + "=1\n",
                   FlagLines(flags, i + 1), FlagParts(flags)[i + 1..]);
    }
  }

  lemma OneText(name: Bytes)
    ensures name + "=1\n" == name + "=1" + [NEWLINE]
  {
  }

  lemma TableText(flags: Flags)
    ensures JoinLines(TableLines(flags)) == Flatten(TableParts(flags))
  {
    FlagText(flags, 0);
    assert FlagParts(flags)[0..] == FlagParts(flags);
    OptionalLine(2 in flags, DUPLICATES, "duplicates=1\n", FlagLines(flags, 0), FlagParts(flags));
  }

  lemma LastText(pagesize: CUInt)
    ensures JoinLines(LastLines(pagesize)) == Flatten(LastParts(pagesize))
  {
    var parts := LastParts(pagesize);
    TwoLines(PAGESIZE + Decimal(pagesize), HEADER_END, parts[0], parts[1], [], []);
    assert LastLines(pagesize) + [] == LastLines(pagesize) && parts + [] == parts;
  }

  lemma FourStretches(a: seq<Bytes>, b: seq<Bytes>, c: seq<Bytes>, d: seq<Bytes>,
                      p: seq<Bytes>, q: seq<Bytes>, r: seq<Bytes>, s: seq<Bytes>)
    requires JoinLines(a) == Flatten(p) && JoinLines(b) == Flatten(q)
    requires JoinLines(c) == Flatten(r) && JoinLines(d) == Flatten(s)
    ensures JoinLines(a + b + c + d) == Flatten(p + q + r + s)
  {
    LinesBehind(a, b, p, q);
    LinesBehind(a + b, c, p + q, r);
    LinesBehind(a + b + c, d, p + q + r, s);
  }

  /** The header of a dump: each line with its text, the optional ones exactly when they apply. */
  lemma HeaderText(asText: bool, info: EnvInfo, db: Database)
    ensures JoinLines(Dump.HeaderLines(asText, info, db))
         == Flatten(FormatParts(asText, db.name) + EnvParts(info) + TableParts(db.flags) + LastParts(db.pagesize))
  {
    FormatText(asText, db.name);
    EnvText(info);
    TableText(db.flags);
    LastText(db.pagesize);
    FourStretches(FormatLines(asText, db.name), EnvLines(info), TableLines(db.flags), LastLines(db.pagesize),
                  FormatParts(asText, db.name), EnvParts(info), TableParts(db.flags), LastParts(db.pagesize));
  }

  // ---------------------------------------------------------------- records and databases

  /** A record is a key line and a data line, a space in front of each. */
  lemma RecordText(asText: bool, isprint: Locale, r: Dump.Record)
    ensures RecordsText(asText, isprint, [r])
         == (if asText then " " + TextOf(isprint, r.key) + "\n" + (" " + TextOf(isprint, r.data) + "\n")
             else " " + HexOf(r.key) + "\n" + (" " + HexOf(r.data) + "\n"))
  {
    assert [r][1..] == [];
  }

  lemma {:induction false} RecordsAppend(asText: bool, isprint: Locale, a: seq<Dump.Record>, b: seq<Dump.Record>)
    ensures RecordsText(asText, isprint, a + b) == RecordsText(asText, isprint, a) + RecordsText(asText, isprint, b)
  {
    if a == [] {
      assert a + b == b;
    } else {
      assert (a + b)[1..] == a[1..] + b;
      RecordsAppend(asText, isprint, a[1..], b);
    }
  }

  /** A database is its header, its records and the closing line; several follow each other. */
  lemma {:induction false} DumpAppend(asText: bool, isprint: Locale, info: EnvInfo, dbs: seq<Database>, db: Database)
    ensures DumpText(asText, isprint, info, dbs + [db])
         == DumpText(asText, isprint, info, dbs)
            + (JoinLines(Dump.HeaderLines(asText, info, db)) + RecordsText(asText, isprint, db.records) + "DATA=END\n")
  {
    if dbs == [] {
      assert [] + [db] == [db] && [db][1..] == [];
      OneDatabase(asText, isprint, info, db);
    } else {
      assert (dbs + [db])[1..] == dbs[1..] + [db];
      DumpAppend(asText, isprint, info, dbs[1..], db);
    }
  }

  lemma OneDatabase(asText: bool, isprint: Locale, info: EnvInfo, db: Database)
    ensures DatabaseText(asText, isprint, info, db)
         == JoinLines(Dump.HeaderLines(asText, info, db)) + RecordsText(asText, isprint, db.records) + "DATA=END\n"
  {
  }
}
