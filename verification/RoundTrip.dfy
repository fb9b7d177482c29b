/** Loading a dump gives the databases back: the header round trip, the record round trip, and the
    whole program run over the output of the other (mdb_dump.c, mdb_load.c). */
module RoundTrip {
  import opened CTypes
  import opened Encoding
  import opened LineReader
  import opened Header
  import opened Load
  import opened Batching
  import opened Dump

  // ---------------------------------------------------------------- records

  lemma ReadCodeLine(isprint: Locale, v: Bytes, tail: Bytes, size: nat, asText: bool)
    requires Sane(isprint) && size >= 2
    ensures var r := ReadRecord(RecordLine(asText, isprint, v) + tail, size, asText, false);
      r.Item? && r.value == v && r.rest == tail && r.size >= size
  {
    TextRoundTrip(isprint, v);
    TextIsOneLine(isprint, v);
    HexRoundTrip(v);
    HexIsOneLine(v);
    var code := Code(asText, isprint, v);
    ReadRecordLine(code, v, tail, size, asText);
    assert RecordLine(asText, isprint, v) + tail == [' '] + code + [NEWLINE] + tail;
  }

  lemma BothFromLines(k: Bytes, d: Bytes, r: Dump.Record, tail: Bytes, ksize: nat, dsize: nat, asText: bool)
    requires ksize >= 2 && dsize >= 2
    requires var x := ReadRecord(k + (d + tail), ksize, asText, false);
      x.Item? && x.value == r.key && x.rest == d + tail
    requires var y := ReadRecord(d + tail, dsize, asText, false); y.Item? && y.value == r.data && y.rest == tail
    ensures var p := ReadBoth(k + d + tail, ksize, dsize, asText, false);
      p.Both? && p.r == r && p.rest == tail && p.ksize >= ksize && p.dsize >= dsize
  {
    assert k + d + tail == k + (d + tail);
  }

  lemma ReadBothLines(isprint: Locale, r: Dump.Record, tail: Bytes, ksize: nat, dsize: nat, asText: bool)
    requires Sane(isprint) && ksize >= 2 && dsize >= 2
    ensures var p := ReadBoth(RecordLine(asText, isprint, r.key) + RecordLine(asText, isprint, r.data) + tail,
                              ksize, dsize, asText, false);
      p.Both? && p.r == r && p.rest == tail && p.ksize >= ksize && p.dsize >= dsize
  {
    var k, d := RecordLine(asText, isprint, r.key), RecordLine(asText, isprint, r.data);
    ReadCodeLine(isprint, r.key, d + tail, ksize, asText);
    ReadCodeLine(isprint, r.data, tail, dsize, asText);
    BothFromLines(k, d, r, tail, ksize, dsize, asText);
  }

  lemma RegroupRest(a: Bytes, b: Bytes, c: Bytes, d: Bytes, e: Bytes)
    ensures a + b + c + d + e == a + (b + c + d + e)
  {
  }

  /** `all` is exactly the records `rs`, closed by their own `DATA=END`, with `tail` left to read. */
  ghost predicate ReadsBack(all: Records, rs: seq<Dump.Record>, tail: Bytes, ksize: nat, dsize: nat) {
    all.records == rs && all.ending == AtDataEnd && all.rest == tail && all.ksize >= ksize && all.dsize >= dsize
  }

  lemma ReadsBackOneMore(rest: Bytes, rs: seq<Dump.Record>, tail: Bytes, ksize: nat, dsize: nat, asText: bool, p: Pair)
    requires ksize >= 2 && dsize >= 2 && rs != []
    requires p == ReadBoth(rest, ksize, dsize, asText, false)
    requires p.Both? && p.r == rs[0]
    requires ReadsBack(ReadAll(p.rest, p.ksize, p.dsize, asText, false), rs[1..], tail, p.ksize, p.dsize)
    ensures ReadsBack(ReadAll(rest, ksize, dsize, asText, false), rs, tail, ksize, dsize)
  {
    assert [rs[0]] + rs[1..] == rs;
  }

  lemma ReadsBackNothing(tail: Bytes, ksize: nat, dsize: nat, asText: bool)
    requires ksize >= 10 && dsize >= 2
    ensures ReadsBack(ReadAll(DATA_END + [NEWLINE] + tail, ksize, dsize, asText, false), [], tail, ksize, dsize)
  {
    ReadDataEnd(tail, ksize, asText);
  }

  /** Reading the records of a dump back gives every record, in order, and stops behind the
      `DATA=END` line of the same database. */
  lemma {:induction false} ReadAllOfDump(isprint: Locale, rs: seq<Dump.Record>, tail: Bytes,
                                         ksize: nat, dsize: nat, asText: bool)
    requires Sane(isprint) && ksize >= 10 && dsize >= 2
    ensures var rest := RecordsText(asText, isprint, rs) + DATA_END + [NEWLINE] + tail;
      ReadsBack(ReadAll(rest, ksize, dsize, asText, false), rs, tail, ksize, dsize)
    decreases |rs|
  {
    if rs == [] {
      ReadsBackNothing(tail, ksize, dsize, asText);
      assert RecordsText(asText, isprint, rs) + DATA_END + [NEWLINE] + tail == DATA_END + [NEWLINE] + tail;
    } else {
      var k, d := RecordLine(asText, isprint, rs[0].key), RecordLine(asText, isprint, rs[0].data);
      var more := RecordsText(asText, isprint, rs[1..]);
      var rest := more + DATA_END + [NEWLINE] + tail;
      RegroupRest(k + d, more, DATA_END, [NEWLINE], tail);
      ReadBothLines(isprint, rs[0], rest, ksize, dsize, asText);
      var p := ReadBoth(k + d + rest, ksize, dsize, asText, false);
      ReadAllOfDump(isprint, rs[1..], tail, p.ksize, p.dsize, asText);
      ReadsBackOneMore(k + d + rest, rs, tail, ksize, dsize, asText, p);
    }
  }

  // ---------------------------------------------------------------- single header lines

  lemma Differs(p: Bytes, line: Bytes, k: nat)
    requires k < |p| && k < |line| && p[k] != line[k]
    ensures !(p <= line)
  {
  }

  lemma UpToNewlineOf(s: Bytes)
    requires OneLine(s)
    ensures UpToNewline(s + [NEWLINE]) == s
  {
    if s != [] {
      assert (s + [NEWLINE])[1..] == s[1..] + [NEWLINE];
      UpToNewlineOf(s[1..]);
    }
  }

  lemma AfterPrefix(p: Bytes, s: Bytes)
    ensures var line := p + s + [NEWLINE]; p <= line && line[|p|..] == s + [NEWLINE]
  {
  }

  lemma ParseVersion(g: Globals, scan: PointerScan)
    ensures ParseLine(VERSION + "3" + [NEWLINE], g, scan) == Next(g)
  {
    AfterPrefix(VERSION, "3");
    var s: Bytes := "3" + [NEWLINE];
    assert s[1..] == [NEWLINE];
    assert DigitsValue(s[1..], 3) == 3;
    assert DigitsValue(s, 0) == 3;
  }

  lemma ParseFormat(asText: bool, g: Globals, scan: PointerScan)
    ensures ParseLine(FORMAT + (if asText then PRINT_FORMAT else BYTE_FORMAT) + [NEWLINE], g, scan)
         == Next(if asText then g.(asText := true) else g)
  {
    var v := if asText then PRINT_FORMAT else BYTE_FORMAT;
    AfterPrefix(FORMAT, v);
    var line := FORMAT + v + [NEWLINE];
    Differs(VERSION, line, 0);
    Differs(HEADER_END, line, 0);
    if !asText { Differs(PRINT_FORMAT, v + [NEWLINE], 0); }
  }

  lemma ParseDatabase(name: Bytes, g: Globals, scan: PointerScan)
    requires OneLine(name)
    ensures ParseLine(DATABASE + name + [NEWLINE], g, scan) == Next(g.(subname := Some(name)))
  {
    AfterPrefix(DATABASE, name);
    UpToNewlineOf(name);
    var line := DATABASE + name + [NEWLINE];
    Differs(VERSION, line, 0);
    Differs(HEADER_END, line, 0);
    Differs(FORMAT, line, 0);
  }

  lemma NotBeforeType(line: Bytes)
    requires |line| >= 2 && line[0] !in {'V', 'H', 'f'} && (line[0] == 'd' ==> line[1] != 'a')
    ensures !(VERSION <= line) && !(HEADER_END <= line) && !(FORMAT <= line) && !(DATABASE <= line)
  {
    Differs(VERSION, line, 0);
    Differs(HEADER_END, line, 0);
    Differs(FORMAT, line, 0);
    Differs(DATABASE, line, if line[0] == 'd' then 1 else 0);
  }

  lemma ParseType(g: Globals, scan: PointerScan)
    ensures ParseLine(TYPE + BTREE + [NEWLINE], g, scan) == Next(g)
  {
    AfterPrefix(TYPE, BTREE);
    NotBeforeType(TYPE + BTREE + [NEWLINE]);
  }

  lemma ParseMapaddr(addr: Bytes, g: Globals, scan: PointerScan)
    requires OneLine(addr) && scan(addr)
    ensures ParseLine(MAPADDR + addr + [NEWLINE], g, scan) == Next(g.(mapaddr := true))
  {
    AfterPrefix(MAPADDR, addr);
    UpToNewlineOf(addr);
    var line := MAPADDR + addr + [NEWLINE];
    NotBeforeType(line);
    Differs(TYPE, line, 0);
  }

  lemma DecimalIsOneLine(n: nat)
    ensures OneLine(Decimal(n))
  {
    DecimalIsDigits(n);
  }

  lemma ScanOfLine(p: Bytes, n: nat)
    ensures var line := p + Decimal(n) + [NEWLINE];
      p <= line && ScanInt(UpToNewline(line[|p|..])) == Some(n)
  {
    AfterPrefix(p, Decimal(n));
    DecimalIsOneLine(n);
    UpToNewlineOf(Decimal(n));
    ScanOfDecimal(n);
  }

  lemma MapsizeLine(s: Bytes, g: Globals, scan: PointerScan, n: MdbId)
    requires MAPSIZE <= s && ScanInt(UpToNewline(s[|MAPSIZE|..])) == Some(n)
    ensures ParseLine(s, g, scan) == Next(g.(mapsize := n))
  {
    assert MAPSIZE[0] == s[0] && MAPSIZE[3] == s[3];
    NotBeforeType(s);
    Differs(TYPE, s, 0);
    Differs(MAPADDR, s, 3);
  }

  lemma ParseMapsize(n: MdbId, g: Globals, scan: PointerScan)
    ensures ParseLine(MAPSIZE + Decimal(n) + [NEWLINE], g, scan) == Next(g.(mapsize := n))
  {
    ScanOfLine(MAPSIZE, n);
    MapsizeLine(MAPSIZE + Decimal(n) + [NEWLINE], g, scan, n);
  }

  lemma MaxreadersLine(s: Bytes, g: Globals, scan: PointerScan, n: CUInt)
    requires MAXREADERS <= s && ScanInt(UpToNewline(s[|MAXREADERS|..])) == Some(n)
    ensures ParseLine(s, g, scan) == Next(g.(maxreaders := n))
  {
    assert MAXREADERS[0] == s[0] && MAXREADERS[2] == s[2];
    NotBeforeType(s);
    Differs(TYPE, s, 0);
    Differs(MAPADDR, s, 2);
    Differs(MAPSIZE, s, 2);
  }

  lemma ParseMaxreaders(n: CUInt, g: Globals, scan: PointerScan)
    ensures ParseLine(MAXREADERS + Decimal(n) + [NEWLINE], g, scan) == Next(g.(maxreaders := n))
  {
    ScanOfLine(MAXREADERS, n);
    MaxreadersLine(MAXREADERS + Decimal(n) + [NEWLINE], g, scan, n);
  }

  lemma StartsWithNoKeyword(line: Bytes)
    requires |line| >= 2 && line[0] !in {'V', 'H', 'f', 't', 'm'} && (line[0] == 'd' ==> line[1] != 'a')
    ensures KeywordOf(line) == NoKeyword
  {
    NotBeforeType(line);
    Differs(TYPE, line, 0);
    Differs(MAPADDR, line, 0);
    Differs(MAPSIZE, line, 0);
    Differs(MAXREADERS, line, 0);
  }

  /** Lines that are not one of the keywords go to the flag table. */
  lemma ParseOther(line: Bytes, g: Globals, scan: PointerScan)
    requires |line| >= 2 && line[0] !in {'V', 'H', 'f', 't', 'm'} && (line[0] == 'd' ==> line[1] != 'a')
    ensures ParseLine(line, g, scan) == ParseFlag(line, g)
  {
    StartsWithNoKeyword(line);
    ParseWithoutKeyword(line, g, scan);
  }

  // ---------------------------------------------------------------- flag lines

  /** The character at which two flag names of the table first differ. */
  function Apart(i: nat, j: nat): nat {
    if i > j then Apart(j, i)
    else if i == 0 && j == 5 then 7
    else if i == 1 && j == 3 then 3
    else if i == 2 && j == 4 then 7
    else 0
  }

  lemma FlagNamesApart(i: nat, j: nat)
    requires i < |DBFLAGS| && j < |DBFLAGS| && i != j
    ensures var k := Apart(i, j);
      k < |DBFLAGS[i].name| && k < |DBFLAGS[j].name| && DBFLAGS[i].name[k] != DBFLAGS[j].name[k]
  {
  }

  lemma {:induction false} FindFlagLine(i: nat, j: nat)
    requires j <= i < |DBFLAGS|
    ensures FindFlag(DBFLAGS[i].name + "=1" + [NEWLINE], j) == i
    decreases i - j
  {
    var line := DBFLAGS[i].name + "=1" + [NEWLINE];
    if j == i {
      assert line[..|DBFLAGS[i].name| + 1] == DBFLAGS[i].name + ['='];
    } else {
      FlagNamesApart(i, j);
      Differs(DBFLAGS[j].name + ['='], line, Apart(i, j));
      FindFlagLine(i, j + 1);
    }
  }

  lemma FlagFound(line: Bytes, g: Globals, i: nat)
    requires i < |DBFLAGS| && FindFlag(line, 0) == i
    ensures ParseFlag(line, g) == Next(g.(flags := g.flags + {DBFLAGS[i].bit}))
  {
  }

  lemma NoFlagFound(line: Bytes, g: Globals)
    requires FindFlag(line, 0) == |DBFLAGS| && '=' in line
    ensures ParseFlag(line, g) == Next(g)
  {
  }

  lemma ParseFlagLine(i: nat, g: Globals, scan: PointerScan)
    requires i < |DBFLAGS|
    ensures ParseLine(DBFLAGS[i].name + "=1" + [NEWLINE], g, scan) == Next(g.(flags := g.flags + {DBFLAGS[i].bit}))
  {
    var line := DBFLAGS[i].name + "=1" + [NEWLINE];
    assert line[|DBFLAGS[i].name|] == '=';
    FindFlagLine(i, 0);
    FlagFound(line, g, i);
    ParseOther(line, g, scan);
  }

  lemma {:induction false} FindNoFlag(line: Bytes, k: nat, j: nat)
    requires j <= |DBFLAGS| && k < |line|
    requires forall i :: 0 <= i < |DBFLAGS| ==>
               k < |DBFLAGS[i].name| && exists m :: 0 <= m <= k && DBFLAGS[i].name[m] != line[m]
    ensures FindFlag(line, j) == |DBFLAGS|
    decreases |DBFLAGS| - j
  {
    if j < |DBFLAGS| {
      var m :| 0 <= m <= k && DBFLAGS[j].name[m] != line[m];
      Differs(DBFLAGS[j].name + ['='], line, m);
      FindNoFlag(line, k, j + 1);
    }
  }

  /** `duplicates=1` is no flag of the table: the parser reads it and ignores it. */
  lemma ParseDuplicates(g: Globals, scan: PointerScan)
    ensures ParseLine(DUPLICATES + [NEWLINE], g, scan) == Next(g)
  {
    var line := DUPLICATES + [NEWLINE];
    assert line[10] == '=';
    forall i | 0 <= i < |DBFLAGS|
      ensures 3 < |DBFLAGS[i].name| && exists m :: 0 <= m <= 3 && DBFLAGS[i].name[m] != line[m]
    {
      assert DBFLAGS[i].name[0] != line[0] || DBFLAGS[i].name[3] != line[3];
    }
    FindNoFlag(line, 3, 0);
    NoFlagFound(line, g);
    ParseOther(line, g, scan);
  }

  /** So is `db_pagesize=`. */
  lemma ParsePagesize(n: nat, g: Globals, scan: PointerScan)
    ensures ParseLine(PAGESIZE + Decimal(n) + [NEWLINE], g, scan) == Next(g)
  {
    var line := PAGESIZE + Decimal(n) + [NEWLINE];
    assert line[11] == '=';
    forall i | 0 <= i < |DBFLAGS|
      ensures 1 < |DBFLAGS[i].name| && exists m :: 0 <= m <= 1 && DBFLAGS[i].name[m] != line[m]
    {
      assert DBFLAGS[i].name[0] != line[0] || DBFLAGS[i].name[1] != line[1];
    }
    FindNoFlag(line, 1, 0);
    NoFlagFound(line, g);
    ParseOther(line, g, scan);
  }

  // ---------------------------------------------------------------- the header

  /** A line that the 4096-byte buffer holds with its newline and NUL. */
  ghost predicate Fits(line: Bytes, size: nat) {
    OneLine(line) && |line| + 2 <= size
  }

  ghost predicate AllFit(lines: seq<Bytes>, size: nat) {
    forall k :: 0 <= k < |lines| ==> Fits(lines[k], size)
  }

  /** The lines before `HEADER=END`, parsed one after the other. */
  ghost function ParseLines(lines: seq<Bytes>, g: Globals, scan: PointerScan): Parsed {
    if lines == [] then Next(g)
    else match ParseLine(lines[0] + [NEWLINE], g, scan)
      case Next(g') => ParseLines(lines[1..], g', scan)
      case other => other
  }

  lemma {:induction false} ParseLinesAppend(a: seq<Bytes>, b: seq<Bytes>, g: Globals, scan: PointerScan)
    requires ParseLines(a, g, scan).Next?
    ensures ParseLines(a + b, g, scan) == ParseLines(b, ParseLines(a, g, scan).g, scan)
    decreases |a|
  {
    if a == [] {
      assert a + b == b;
    } else {
      assert (a + b)[1..] == a[1..] + b;
      ParseLinesAppend(a[1..], b, ParseLine(a[0] + [NEWLINE], g, scan).g, scan);
    }
  }

  /** A line that fits the buffer is read whole and handled. */
  lemma HeaderLineStep(line: Bytes, tail: Bytes, size: nat, g: Globals, p: LineParser)
    requires size >= 2 && Fits(line, size)
    ensures ParseHeader(line + [NEWLINE] + tail, size, g, p)
         == AfterLine(Handled(p, line + [NEWLINE], g, |tail|), tail, size, g, p)
  {
    ChunkOfShortLine(line, tail, size - 1);
    CStringOfNulFree(line + [NEWLINE]);
    assert (line + [NEWLINE] + tail)[|line + [NEWLINE]|..] == tail;
    ParseHeaderStep(line + [NEWLINE] + tail, size, g, p, line + [NEWLINE], tail);
  }

  lemma ParseHeaderEnd(g: Globals, scan: PointerScan)
    ensures ParseLine(HEADER_END + [NEWLINE], g, scan) == Complete
  {
    Differs(VERSION, HEADER_END + [NEWLINE], 0);
    assert HEADER_END <= HEADER_END + [NEWLINE];
  }

  lemma SplitFirstLine(lines: seq<Bytes>, tail: Bytes)
    requires lines != []
    ensures JoinLines(lines) + HEADER_END + [NEWLINE] + tail
         == lines[0] + [NEWLINE] + (JoinLines(lines[1..]) + HEADER_END + [NEWLINE] + tail)
  {
  }

  lemma {:induction false} ParseHeaderOfLines(lines: seq<Bytes>, tail: Bytes, size: nat, g: Globals,
                                              scan: PointerScan, older: OlderBytes)
    requires size >= 20 && AllFit(lines, size)
    requires ParseLines(lines, g, scan).Next?
    ensures ParseHeader(JoinLines(lines) + HEADER_END + [NEWLINE] + tail, size, g, LineParserFor(scan, older))
         == HeaderResult.Parsed(tail, ParseLines(lines, g, scan).g)
    decreases |lines|
  {
    var p, rest := LineParserFor(scan, older), JoinLines(lines) + HEADER_END + [NEWLINE] + tail;
    if lines == [] {
      assert rest == HEADER_END + [NEWLINE] + tail;
      HeaderLineStep(HEADER_END, tail, size, g, p);
      ParseHeaderEnd(g, scan);
      HandledByParseLine(scan, older, HEADER_END + [NEWLINE], g, |tail|);
    } else {
      var line, tail' := lines[0] + [NEWLINE], JoinLines(lines[1..]) + HEADER_END + [NEWLINE] + tail;
      SplitFirstLine(lines, tail);
      HeaderLineStep(lines[0], tail', size, g, p);
      HandledByParseLine(scan, older, line, g, |tail'|);
      ParseHeaderOfLines(lines[1..], tail, size, ParseLine(line, g, scan).g, scan, older);
    }
  }

  // ---------------------------------------------------------------- the lines of a dump

  /** What can be dumped so that the header reads back: a name without newline that fits the
      buffer, an address that scans. */
  ghost predicate Loadable(info: EnvInfo, db: Database, scan: PointerScan, size: nat) {
    && (db.name.Some? ==> Fits(DATABASE + db.name.value, size))
    && (info.mapaddr.Some? ==> scan(info.mapaddr.value) && Fits(MAPADDR + info.mapaddr.value, size))
  }

  /** The globals after the header of `db` has been parsed. */
  ghost function HeaderGlobals(g: Globals, asText: bool, info: EnvInfo, db: Database): Globals {
    Globals(g.flags + db.flags * TABLE_BITS, g.asText || asText, if db.name.Some? then db.name else g.subname,
            info.mapsize, info.maxreaders, g.mapaddr || info.mapaddr.Some?)
  }

  lemma OneMoreLine(line: Bytes, lines: seq<Bytes>, g: Globals, g': Globals, scan: PointerScan)
    requires ParseLine(line + [NEWLINE], g, scan) == Next(g')
    ensures ParseLines([line] + lines, g, scan) == ParseLines(lines, g', scan)
  {
    assert ([line] + lines)[1..] == lines;
  }

  lemma ParseFormatLines(asText: bool, name: Option<Bytes>, g: Globals, scan: PointerScan)
    requires name.Some? ==> OneLine(name.value)
    ensures ParseLines(FormatLines(asText, name), g, scan)
         == Next(g.(asText := g.asText || asText, subname := if name.Some? then name else g.subname))
  {
    var l1, l2 := VERSION + "3", FORMAT + if asText then PRINT_FORMAT else BYTE_FORMAT;
    var l3 := if name.Some? then [DATABASE + name.value] else [];
    var g2 := if asText then g.(asText := true) else g;
    assert FormatLines(asText, name) == [l1] + ([l2] + l3);
    ParseVersion(g, scan);
    OneMoreLine(l1, [l2] + l3, g, g, scan);
    ParseFormat(asText, g, scan);
    OneMoreLine(l2, l3, g, g2, scan);
    if name.Some? {
      ParseDatabase(name.value, g2, scan);
      OneMoreLine(DATABASE + name.value, [], g2, g2.(subname := name), scan);
      assert l3 == [DATABASE + name.value] + [];
    }
  }

  lemma ParseEnvLines(info: EnvInfo, g: Globals, scan: PointerScan)
    requires info.mapaddr.Some? ==> OneLine(info.mapaddr.value) && scan(info.mapaddr.value)
    ensures ParseLines(EnvLines(info), g, scan)
         == Next(g.(mapsize := info.mapsize, maxreaders := info.maxreaders, mapaddr := g.mapaddr || info.mapaddr.Some?))
  {
    var l1, l2, l4 := TYPE + BTREE, MAPSIZE + Decimal(info.mapsize), MAXREADERS + Decimal(info.maxreaders);
    var l3 := if info.mapaddr.Some? then [MAPADDR + info.mapaddr.value] else [];
    assert EnvLines(info) == [l1] + ([l2] + (l3 + [l4]));
    ParseType(g, scan);
    OneMoreLine(l1, [l2] + (l3 + [l4]), g, g, scan);
    var g2 := g.(mapsize := info.mapsize);
    ParseMapsize(info.mapsize, g, scan);
    OneMoreLine(l2, l3 + [l4], g, g2, scan);
    var g3 := g2.(mapaddr := g2.mapaddr || info.mapaddr.Some?);
    if info.mapaddr.Some? {
      ParseMapaddr(info.mapaddr.value, g2, scan);
      OneMoreLine(l3[0], [l4], g2, g3, scan);
      assert l3 + [l4] == [l3[0]] + [l4];
    } else {
      assert l3 + [l4] == [l4];
    }
    ParseMaxreaders(info.maxreaders, g3, scan);
    OneMoreLine(l4, [], g3, g3.(maxreaders := info.maxreaders), scan);
    assert [l4] + [] == [l4];
  }

  /** `acc` with the flags printed from entry `i` of the table on. */
  ghost function WithFlags(flags: Flags, i: nat, acc: Flags): Flags
    requires i <= |DBFLAGS|
    decreases |DBFLAGS| - i
  {
    if i == |DBFLAGS| then acc
    else WithFlags(flags, i + 1, if DBFLAGS[i].bit in flags then acc + {DBFLAGS[i].bit} else acc)
  }

  lemma {:induction false} ParseFlagLines(flags: Flags, i: nat, g: Globals, scan: PointerScan)
    requires i <= |DBFLAGS|
    ensures ParseLines(FlagLines(flags, i), g, scan) == Next(g.(flags := WithFlags(flags, i, g.flags)))
    decreases |DBFLAGS| - i
  {
    if i < |DBFLAGS| {
      var line, more := DBFLAGS[i].name + "=1", FlagLines(flags, i + 1);
      var g' := if DBFLAGS[i].bit in flags then g.(flags := g.flags + {DBFLAGS[i].bit}) else g;
      ParseFlagLines(flags, i + 1, g', scan);
      if DBFLAGS[i].bit in flags {
        ParseFlagLine(i, g, scan);
        OneMoreLine(line, more, g, g', scan);
        assert FlagLines(flags, i) == [line] + more;
      } else {
        assert FlagLines(flags, i) == more;
      }
    }
  }

  /** The table entries from `i` on hold the bits from `i + 1` on: they take over exactly those. */
  lemma {:induction false} WithFlagsFrom(flags: Flags, i: nat, acc: Flags)
    requires i <= |DBFLAGS|
    ensures WithFlags(flags, i, acc) == acc + (set b | b in flags * TABLE_BITS && i < b)
    decreases |DBFLAGS| - i
  {
    if i < |DBFLAGS| {
      assert DBFLAGS[i].bit == i + 1;
      WithFlagsFrom(flags, i + 1, if i + 1 in flags then acc + {i + 1} else acc);
    }
  }

  lemma WithAllFlags(flags: Flags, acc: Flags)
    ensures WithFlags(flags, 0, acc) == acc + flags * TABLE_BITS
  {
    WithFlagsFrom(flags, 0, acc);
  }

  lemma ParseTableLines(flags: Flags, g: Globals, scan: PointerScan)
    ensures ParseLines(TableLines(flags), g, scan) == Next(g.(flags := g.flags + flags * TABLE_BITS))
  {
    WithAllFlags(flags, g.flags);
    ParseFlagLines(flags, 0, g, scan);
    if DUPSORT in flags {
      ParseDuplicates(g, scan);
      OneMoreLine(DUPLICATES, FlagLines(flags, 0), g, g, scan);
    } else {
      assert TableLines(flags) == FlagLines(flags, 0);
    }
  }

  ghost function LinesBeforeEnd(asText: bool, info: EnvInfo, db: Database): seq<Bytes> {
    FormatLines(asText, db.name) + EnvLines(info) + TableLines(db.flags) + [PAGESIZE + Decimal(db.pagesize)]
  }

  lemma ParseDumpedLines(asText: bool, info: EnvInfo, db: Database, g: Globals, scan: PointerScan, size: nat)
    requires Loadable(info, db, scan, size)
    ensures ParseLines(LinesBeforeEnd(asText, info, db), g, scan) == Next(HeaderGlobals(g, asText, info, db))
  {
    if db.name.Some? { OneLineTail(DATABASE, db.name.value); }
    if info.mapaddr.Some? { OneLineTail(MAPADDR, info.mapaddr.value); }
    var d := PAGESIZE + Decimal(db.pagesize);
    ParseFormatLines(asText, db.name, g, scan);
    var g1 := ParseLines(FormatLines(asText, db.name), g, scan).g;
    ParseEnvLines(info, g1, scan);
    var g2 := ParseLines(EnvLines(info), g1, scan).g;
    ParseTableLines(db.flags, g2, scan);
    var g3 := ParseLines(TableLines(db.flags), g2, scan).g;
    ParsePagesize(db.pagesize, g3, scan);
    OneMoreLine(d, [], g3, g3, scan);
    assert [d] + [] == [d];
    ParseFourParts(FormatLines(asText, db.name), EnvLines(info), TableLines(db.flags), [d], g, g1, g2, g3, g3, scan);
  }

  lemma ParseFourParts(a: seq<Bytes>, b: seq<Bytes>, c: seq<Bytes>, d: seq<Bytes>,
                       g: Globals, g1: Globals, g2: Globals, g3: Globals, g4: Globals, scan: PointerScan)
    requires ParseLines(a, g, scan) == Next(g1) && ParseLines(b, g1, scan) == Next(g2)
    requires ParseLines(c, g2, scan) == Next(g3) && ParseLines(d, g3, scan) == Next(g4)
    ensures ParseLines(a + b + c + d, g, scan) == Next(g4)
  {
    ParseLinesAppend(a, b, g, scan);
    ParseLinesAppend(a + b, c, g, scan);
    ParseLinesAppend(a + b + c, d, g, scan);
  }

  lemma OneLineTail(p: Bytes, s: Bytes)
    requires OneLine(p + s)
    ensures OneLine(s)
  {
    assert forall k :: 0 <= k < |s| ==> s[k] == (p + s)[|p| + k];
  }

  lemma AllFitAppend(a: seq<Bytes>, b: seq<Bytes>, size: nat)
    requires AllFit(a, size) && AllFit(b, size)
    ensures AllFit(a + b, size)
  {
  }

  lemma FlagNameFits(i: nat, size: nat)
    requires i < |DBFLAGS| && size >= 64
    ensures Fits(DBFLAGS[i].name + "=1", size)
  {
  }

  lemma FlagLinesFit(flags: Flags, i: nat, size: nat)
    requires i <= |DBFLAGS| && size >= 64
    ensures AllFit(FlagLines(flags, i), size)
    decreases |DBFLAGS| - i
  {
    if i < |DBFLAGS| {
      FlagLinesFit(flags, i + 1, size);
      FlagNameFits(i, size);
      AllFitAppend([DBFLAGS[i].name + "=1"], FlagLines(flags, i + 1), size);
      assert [] + FlagLines(flags, i + 1) == FlagLines(flags, i + 1);
    }
  }

  lemma NumberLineFits(p: Bytes, n: MdbId, size: nat)
    requires OneLine(p) && |p| <= 20 && size >= 64
    ensures Fits(p + Decimal(n), size)
  {
    DecimalIsOneLine(n);
    DecimalOfSize(n);
  }

  lemma FormatLinesFit(asText: bool, name: Option<Bytes>, size: nat)
    requires size >= 64 && (name.Some? ==> Fits(DATABASE + name.value, size))
    ensures AllFit(FormatLines(asText, name), size)
  {
    assert Fits(VERSION + "3", size);
    assert Fits(FORMAT + PRINT_FORMAT, size) && Fits(FORMAT + BYTE_FORMAT, size);
  }

  lemma EnvLinesFit(info: EnvInfo, size: nat)
    requires size >= 64 && (info.mapaddr.Some? ==> Fits(MAPADDR + info.mapaddr.value, size))
    ensures AllFit(EnvLines(info), size)
  {
    NumberLineFits(MAPSIZE, info.mapsize, size);
    NumberLineFits(MAXREADERS, info.maxreaders, size);
    assert Fits(TYPE + BTREE, size);
  }

  lemma TableLinesFit(flags: Flags, size: nat)
    requires size >= 64
    ensures AllFit(TableLines(flags), size)
  {
    FlagLinesFit(flags, 0, size);
    assert Fits(DUPLICATES, size);
    AllFitAppend([DUPLICATES], FlagLines(flags, 0), size);
    assert [] + FlagLines(flags, 0) == FlagLines(flags, 0);
  }

  lemma FourPartsFit(a: seq<Bytes>, b: seq<Bytes>, c: seq<Bytes>, d: seq<Bytes>, size: nat)
    requires AllFit(a, size) && AllFit(b, size) && AllFit(c, size) && AllFit(d, size)
    ensures AllFit(a + b + c + d, size)
  {
    AllFitAppend(a, b, size);
    AllFitAppend(a + b, c, size);
    AllFitAppend(a + b + c, d, size);
  }

  lemma PagesizeFits(n: CUInt, size: nat)
    requires size >= 64
    ensures AllFit([PAGESIZE + Decimal(n)], size)
  {
    NumberLineFits(PAGESIZE, n, size);
  }

  lemma DumpedLinesFit(asText: bool, info: EnvInfo, db: Database, scan: PointerScan, size: nat)
    requires Loadable(info, db, scan, size) && size >= 64
    ensures AllFit(LinesBeforeEnd(asText, info, db), size)
  {
    FormatLinesFit(asText, db.name, size);
    EnvLinesFit(info, size);
    TableLinesFit(db.flags, size);
    PagesizeFits(db.pagesize, size);
    FourPartsFit(FormatLines(asText, db.name), EnvLines(info), TableLines(db.flags),
                 [PAGESIZE + Decimal(db.pagesize)], size);
  }

  /** The header round trip: name, format, table flags and environment sizes come back. */
  lemma ParseHeaderOfDump(asText: bool, info: EnvInfo, db: Database, tail: Bytes, size: nat,
                          g: Globals, scan: PointerScan, older: OlderBytes)
    requires Loadable(info, db, scan, size) && size >= 64
    ensures ParseHeader(JoinLines(HeaderLines(asText, info, db)) + tail, size, g, LineParserFor(scan, older))
         == HeaderResult.Parsed(tail, HeaderGlobals(g, asText, info, db))
  {
    var lines := LinesBeforeEnd(asText, info, db);
    DumpedLinesFit(asText, info, db, scan, size);
    ParseDumpedLines(asText, info, db, g, scan, size);
    ParseHeaderOfLines(lines, tail, size, g, scan, older);
    HeaderTextSplits(asText, info, db, tail);
  }

  lemma HeaderTextSplits(asText: bool, info: EnvInfo, db: Database, tail: Bytes)
    ensures JoinLines(HeaderLines(asText, info, db)) + tail
         == JoinLines(LinesBeforeEnd(asText, info, db)) + HEADER_END + [NEWLINE] + tail
  {
    var lines := LinesBeforeEnd(asText, info, db);
    assert HeaderLines(asText, info, db) == lines + [HEADER_END];
    JoinOneMore(lines, HEADER_END);
    var j := JoinLines(lines);
    assert j + (HEADER_END + [NEWLINE]) + tail == j + HEADER_END + [NEWLINE] + tail;
  }
}
