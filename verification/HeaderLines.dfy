/** What each kind of header line does when it is read, dumped or not: the values it sets, and the lines
    that make the program give up (`readhdr` of mdb_load.c). */
module HeaderLines {
  import opened CTypes
  import opened Encoding
  import opened LineReader
  import opened Header
  import opened RoundTrip
  import RecordLines

  // ---------------------------------------------------------------- numbers

  /** Decimal notation, digit by digit. */
  lemma DecimalNotation(n: nat, d: nat)
    requires d < 10
    ensures Decimal(d) == ["0123456789"[d]]
    ensures n > 0 ==> Decimal(10 * n + d) == Decimal(n) + ["0123456789"[d]]
  {
    assert HexDigit(d) == "0123456789"[d];
    assert (10 * n + d) / 10 == n && (10 * n + d) % 10 == d;
  }

  /** Nothing or a sign. */
  ghost predicate IsSign(sign: Bytes) {
    sign == [] || sign == ['+'] || sign == ['-']
  }

  ghost predicate Spaces(s: Bytes) {
    forall k :: 0 <= k < |s| ==> s[k] == ' ' || s[k] == '\t' || s[k] == '\r' || (10 <= s[k] as int <= 12)
  }

  ghost predicate Zeros(s: Bytes) {
    forall k :: 0 <= k < |s| ==> s[k] == '0'
  }

  ghost predicate NoDigitFirst(s: Bytes) {
    s == [] || !('0' <= s[0] <= '9')
  }

  /** The text holds the number `n`: white space, a sign, zeros, the digits of `n`, and then anything else. */
  ghost predicate HasNumber(s: Bytes, n: int, spaces: Bytes, sign: Bytes, zeros: Bytes, rest: Bytes) {
    && Spaces(spaces) && IsSign(sign) && Zeros(zeros) && NoDigitFirst(rest)
    && (sign == ['-'] ==> n <= 0) && (sign != ['-'] ==> n >= 0)
    && s == spaces + (sign + (zeros + (Decimal(if n < 0 then -n else n) + rest)))
  }

  /** The text holds no number: behind white space and a sign comes no digit. */
  ghost predicate HasNoNumber(s: Bytes, spaces: Bytes, sign: Bytes, rest: Bytes) {
    && Spaces(spaces) && IsSign(sign) && NoDigitFirst(rest)
    && (sign == [] && rest != [] ==> !Spaces([rest[0]]) && rest[0] != '+' && rest[0] != '-')
    && s == spaces + (sign + rest)
  }

  lemma {:induction false} SkipLeadingSpaces(spaces: Bytes, s: Bytes)
    requires Spaces(spaces) && (s == [] || !IsSpace(s[0]))
    ensures SkipSpaces(spaces + s) == s
  {
    if spaces == [] {
      assert [] + s == s;
    } else {
      assert (spaces + s)[1..] == spaces[1..] + s;
      SkipLeadingSpaces(spaces[1..], s);
    }
  }

  lemma {:induction false} SkipLeadingZeros(zeros: Bytes, s: Bytes)
    requires Zeros(zeros)
    ensures DigitsValue(zeros + s, 0) == DigitsValue(s, 0)
  {
    if zeros == [] {
      assert [] + s == s;
    } else {
      assert (zeros + s)[1..] == zeros[1..] + s;
      SkipLeadingZeros(zeros[1..], s);
    }
  }

  lemma DigitsOfNumber(n: nat, zeros: Bytes, rest: Bytes)
    requires Zeros(zeros) && NoDigitFirst(rest)
    ensures var u := zeros + (Decimal(n) + rest); u != [] && IsDigit(u[0]) && DigitsValue(u, 0) == n
  {
    DecimalIsDigits(n);
    SkipLeadingZeros(zeros, Decimal(n) + rest);
    DigitsValueSplit(Decimal(n), rest, 0);
    DecimalValue(n);
  }

  lemma ScanNumber(s: Bytes, n: int, spaces: Bytes, sign: Bytes, zeros: Bytes, rest: Bytes)
    requires HasNumber(s, n, spaces, sign, zeros, rest)
    ensures ScanInt(s) == Some(n)
  {
    var m: nat := if n < 0 then -n else n;
    var u := zeros + (Decimal(m) + rest);
    DigitsOfNumber(m, zeros, rest);
    SkipLeadingSpaces(spaces, sign + u);
    if sign == [] { assert sign + u == u; } else { assert (sign + u)[1..] == u; }
  }

  lemma ScanNoNumber(s: Bytes, spaces: Bytes, sign: Bytes, rest: Bytes)
    requires HasNoNumber(s, spaces, sign, rest)
    ensures ScanInt(s) == None
  {
    SkipLeadingSpaces(spaces, sign + rest);
    if sign == [] { assert sign + rest == rest; } else { assert (sign + rest)[1..] == rest; }
  }

  // ---------------------------------------------------------------- one line of a header

  /** How a line may end: with a newline; with a NUL, which hides the rest of it; without either. */
  ghost predicate LineEnd(end: Bytes) {
    end == [] || end == [NEWLINE]
    || (|end| >= 2 && end[0] == NUL && end[|end| - 1] == NEWLINE && forall k :: 0 < k < |end| - 1 ==> end[k] != NEWLINE)
  }

  /** What the program sees of the end of a line. */
  ghost function Seen(end: Bytes): Bytes {
    if end != [] && end[0] == NUL then [] else end
  }

  /** A line that one `fgets` takes: it fits the buffer with its end, or is the last one of the input, or
      is as much of a longer line as the buffer holds. */
  ghost predicate Placed(line: Bytes, end: Bytes, tail: Bytes, size: nat) {
    && OneLine(line) && line + end != [] && LineEnd(end) && |line + end| < size
    && (end == [] ==> tail == [] || |line| == size - 1)
  }

  lemma ChunkOfLine(line: Bytes, end: Bytes, tail: Bytes, size: nat)
    requires size >= 2 && Placed(line, end, tail, size)
    ensures Chunk(line + end + tail, size - 1) == line + end && CString(line + end) == line + Seen(end)
  {
    if end == [] {
      assert line + end == line && line + Seen(end) == line;
      ChunkWithout(line, tail, size - 1);
      CStringOfNulFree(line);
    } else {
      var body := line + end[..|end| - 1];
      assert line + end == body + [NEWLINE];
      RecordLines.ChunkToNewline(body, tail, size - 1);
      SeenOfLine(line, end);
    }
  }

  lemma SeenOfLine(line: Bytes, end: Bytes)
    requires OneLine(line) && end != [] && LineEnd(end)
    ensures CString(line + end) == line + Seen(end)
  {
    if end[0] == NUL {
      assert line + end == line + [NUL] + end[1..] && line + [] == line;
      RecordLines.CStringToNul(line, end[1..]);
    } else {
      CStringOfNulFree(line + end);
    }
  }

  lemma {:induction false} ChunkWithout(text: Bytes, tail: Bytes, max: nat)
    requires OneLine(text) && |text| <= max && (tail == [] || |text| == max)
    ensures Chunk(text + tail, max) == text
  {
    if text == [] {
      assert text + tail == tail;
    } else {
      assert (text + tail)[1..] == text[1..] + tail;
      ChunkWithout(text[1..], tail, max - 1);
      assert text == [text[0]] + text[1..];
    }
  }

  lemma LineStep(line: Bytes, end: Bytes, tail: Bytes, size: nat, g: Globals, p: LineParser)
    requires size >= 2 && Placed(line, end, tail, size)
    ensures ParseHeader(line + end + tail, size, g, p)
         == AfterLine(Handled(p, line + Seen(end), g, |tail|), tail, size, g, p)
  {
    ChunkOfLine(line, end, tail, size);
    assert (line + end + tail)[|line + end|..] == tail;
    ParseHeaderStep(line + end + tail, size, g, p, line + Seen(end), tail);
  }

  /** The header goes on behind the line with these globals. */
  ghost predicate GoesOn(line: Bytes, end: Bytes, tail: Bytes, size: nat, g: Globals, g': Globals,
                         scan: PointerScan, older: OlderBytes)
    requires size >= 2
  {
    var p := LineParserFor(scan, older);
    ParseHeader(line + end + tail, size, g, p) == ParseHeader(tail, size, g', p)
  }

  /** The program gives up at the line. */
  ghost predicate GivesUp(line: Bytes, end: Bytes, tail: Bytes, size: nat, g: Globals,
                          scan: PointerScan, older: OlderBytes)
    requires size >= 2
  {
    ParseHeader(line + end + tail, size, g, LineParserFor(scan, older)) == Exited
  }

  /** What the line does, from what the line parser says of it. */
  lemma ByParser(line: Bytes, end: Bytes, tail: Bytes, size: nat, g: Globals, q: Parsed,
                 scan: PointerScan, older: OlderBytes)
    requires size >= 2 && Placed(line, end, tail, size) && ParseLine(line + Seen(end), g, scan) == q
    ensures q.Next? ==> GoesOn(line, end, tail, size, g, q.g, scan, older)
    ensures q.Exit? ==> GivesUp(line, end, tail, size, g, scan, older)
    ensures q.Complete? ==>
      ParseHeader(line + end + tail, size, g, LineParserFor(scan, older)) == HeaderResult.Parsed(tail, g)
    ensures q.Stale? ==> if older(|tail|) then GoesOn(line, end, tail, size, g, g, scan, older)
                         else GivesUp(line, end, tail, size, g, scan, older)
  {
    LineStep(line, end, tail, size, g, LineParserFor(scan, older));
  }

  // ---------------------------------------------------------------- keywords

  lemma KeywordVersion(s: Bytes)
    ensures KeywordOf(VERSION + s) == Version && (VERSION + s)[|VERSION|..] == s
  {
    assert (VERSION + s)[..|VERSION|] == VERSION;
  }

  lemma KeywordEnd(s: Bytes)
    ensures KeywordOf(HEADER_END + s) == HeaderEnd
  {
    var line := HEADER_END + s;
    assert line[..|HEADER_END|] == HEADER_END && line[0] == 'H';
    Differs(VERSION, line, 0);
  }

  lemma KeywordFormat(s: Bytes)
    ensures KeywordOf(FORMAT + s) == Format && (FORMAT + s)[|FORMAT|..] == s
  {
    var line := FORMAT + s;
    assert line[..|FORMAT|] == FORMAT && line[0] == 'f';
    Differs(VERSION, line, 0);
    Differs(HEADER_END, line, 0);
  }

  lemma KeywordDatabase(s: Bytes)
    ensures KeywordOf(DATABASE + s) == DatabaseName && (DATABASE + s)[|DATABASE|..] == s
  {
    var line := DATABASE + s;
    assert line[..|DATABASE|] == DATABASE && line[0] == 'd';
    Differs(VERSION, line, 0);
    Differs(HEADER_END, line, 0);
    Differs(FORMAT, line, 0);
  }

  lemma KeywordType(s: Bytes)
    ensures KeywordOf(TYPE + s) == Type && (TYPE + s)[|TYPE|..] == s
  {
    var line := TYPE + s;
    assert line[..|TYPE|] == TYPE && line[0] == 't';
    NotBeforeType(line);
  }

  lemma KeywordMapaddr(s: Bytes)
    ensures KeywordOf(MAPADDR + s) == MapAddr && (MAPADDR + s)[|MAPADDR|..] == s
  {
    var line := MAPADDR + s;
    assert line[..|MAPADDR|] == MAPADDR && line[0] == 'm';
    NotBeforeType(line);
    Differs(TYPE, line, 0);
  }

  lemma KeywordMapsize(s: Bytes)
    ensures KeywordOf(MAPSIZE + s) == MapSize && (MAPSIZE + s)[|MAPSIZE|..] == s
  {
    var line := MAPSIZE + s;
    assert line[..|MAPSIZE|] == MAPSIZE && line[0] == 'm' && line[3] == 's';
    NotBeforeType(line);
    Differs(TYPE, line, 0);
    Differs(MAPADDR, line, 3);
  }

  lemma KeywordMaxreaders(s: Bytes)
    ensures KeywordOf(MAXREADERS + s) == MaxReaders && (MAXREADERS + s)[|MAXREADERS|..] == s
  {
    var line := MAXREADERS + s;
    assert line[..|MAXREADERS|] == MAXREADERS && line[0] == 'm' && line[2] == 'x';
    NotBeforeType(line);
    Differs(TYPE, line, 0);
    Differs(MAPADDR, line, 2);
    Differs(MAPSIZE, line, 2);
  }

  lemma Behind(keyword: Bytes, s: Bytes, end: Bytes)
    ensures keyword + s + end == keyword + (s + end)
  {
  }

  lemma {:induction false} UpToEnd(s: Bytes, end: Bytes)
    requires OneLine(s) && (end == [NEWLINE] || end == [])
    ensures UpToNewline(s + end) == s
  {
    if s == [] {
      assert [] + end == end;
    } else {
      assert (s + end)[1..] == s[1..] + end;
      UpToEnd(s[1..], end);
    }
  }

  // ---------------------------------------------------------------- the laws

  /** A version above 3 is refused; any other is accepted and changes nothing. */
  lemma VersionLine(s: Bytes, n: int, spaces: Bytes, sign: Bytes, zeros: Bytes, rest: Bytes,
                    end: Bytes, tail: Bytes, size: nat, g: Globals, scan: PointerScan, older: OlderBytes)
    requires size >= 2 && Placed("VERSION=" + s, end, tail, size) && HasNumber(s, n, spaces, sign, zeros, rest)
    ensures if n > 3 then GivesUp("VERSION=" + s, end, tail, size, g, scan, older)
            else GoesOn("VERSION=" + s, end, tail, size, g, g, scan, older)
  {
    Behind(VERSION, s, Seen(end));
    KeywordVersion(s + Seen(end));
    NumberBeforeEnd(s, n, spaces, sign, zeros, rest, Seen(end));
    ScanNumber(s + Seen(end), n, spaces, sign, zeros, rest + Seen(end));
    ByParser(VERSION + s, end, tail, size, g, if n > 3 then Exit else Next(g), scan, older);
  }

  lemma NumberBeforeEnd(s: Bytes, n: int, spaces: Bytes, sign: Bytes, zeros: Bytes, rest: Bytes, end: Bytes)
    requires HasNumber(s, n, spaces, sign, zeros, rest) && (end == [NEWLINE] || end == [])
    ensures HasNumber(s + end, n, spaces, sign, zeros, rest + end)
  {
    var d := Decimal(if n < 0 then -n else n);
    assert s + end == spaces + (sign + (zeros + (d + (rest + end))));
  }

  lemma NoNumberBeforeEnd(s: Bytes, spaces: Bytes, sign: Bytes, rest: Bytes, end: Bytes)
    requires HasNoNumber(s, spaces, sign, rest) && (end == [NEWLINE] || end == [])
    ensures ScanInt(s + end) == None
  {
    if sign == [] && rest == [] {
      assert s + end == spaces + end + ([] + []);
      ScanNoNumber(s + end, spaces + end, [], []);
    } else {
      assert s + end == spaces + (sign + (rest + end));
      assert rest != [] ==> (rest + end)[0] == rest[0];
      ScanNoNumber(s + end, spaces, sign, rest + end);
    }
  }

  /** A version that is no number is accepted: `atoi` makes it 0. */
  lemma VersionWithoutNumber(s: Bytes, spaces: Bytes, sign: Bytes, rest: Bytes,
                             end: Bytes, tail: Bytes, size: nat, g: Globals, scan: PointerScan, older: OlderBytes)
    requires size >= 2 && Placed("VERSION=" + s, end, tail, size) && HasNoNumber(s, spaces, sign, rest)
    ensures GoesOn("VERSION=" + s, end, tail, size, g, g, scan, older)
  {
    Behind(VERSION, s, Seen(end));
    KeywordVersion(s + Seen(end));
    NoNumberBeforeEnd(s, spaces, sign, rest, Seen(end));
    ByParser(VERSION + s, end, tail, size, g, Next(g), scan, older);
  }

  /** `format=print` sets print mode, `format=bytevalue` leaves the mode as it is, any other format is
      refused. */
  lemma FormatLine(s: Bytes, end: Bytes, tail: Bytes, size: nat, g: Globals, scan: PointerScan, older: OlderBytes)
    requires size >= 2 && Placed("format=" + s, end, tail, size)
    ensures if "print" <= s then GoesOn("format=" + s, end, tail, size, g, g.(asText := true), scan, older)
            else if "bytevalue" <= s then GoesOn("format=" + s, end, tail, size, g, g, scan, older)
            else GivesUp("format=" + s, end, tail, size, g, scan, older)
  {
    Behind(FORMAT, s, Seen(end));
    KeywordFormat(s + Seen(end));
    PrefixBeforeEnd("print", s, Seen(end));
    PrefixBeforeEnd("bytevalue", s, Seen(end));
    ByParser(FORMAT + s, end, tail, size, g, ParseLine(FORMAT + s + Seen(end), g, scan), scan, older);
  }

  lemma PrefixBeforeEnd(p: Bytes, s: Bytes, end: Bytes)
    requires (end == [NEWLINE] || end == []) && forall k :: 0 <= k < |p| ==> p[k] != NEWLINE
    ensures p <= s + end <==> p <= s
  {
    if end == [] {
      assert s + end == s;
    } else if |s| < |p| {
      assert p[|s|] != (s + end)[|s|];
    } else {
      assert (s + end)[..|p|] == s[..|p|];
    }
  }

  /** Only B-trees are accepted. */
  lemma TypeLine(s: Bytes, end: Bytes, tail: Bytes, size: nat, g: Globals, scan: PointerScan, older: OlderBytes)
    requires size >= 2 && Placed("type=" + s, end, tail, size)
    ensures if "btree" <= s then GoesOn("type=" + s, end, tail, size, g, g, scan, older)
            else GivesUp("type=" + s, end, tail, size, g, scan, older)
  {
    Behind(TYPE, s, Seen(end));
    KeywordType(s + Seen(end));
    PrefixBeforeEnd("btree", s, Seen(end));
    ByParser(TYPE + s, end, tail, size, g, ParseLine(TYPE + s + Seen(end), g, scan), scan, older);
  }

  /** The name of the database is the rest of its line. */
  lemma DatabaseLine(name: Bytes, end: Bytes, tail: Bytes, size: nat, g: Globals, scan: PointerScan, older: OlderBytes)
    requires size >= 2 && Placed("database=" + name, end, tail, size)
    ensures GoesOn("database=" + name, end, tail, size, g, g.(subname := Some(name)), scan, older)
  {
    Behind(DATABASE, name, Seen(end));
    KeywordDatabase(name + Seen(end));
    OneLineTail(DATABASE, name);
    UpToEnd(name, Seen(end));
    ByParser(DATABASE + name, end, tail, size, g, ParseLine(DATABASE + name + Seen(end), g, scan), scan, older);
  }

  /** An address must scan. */
  lemma MapaddrLine(s: Bytes, end: Bytes, tail: Bytes, size: nat, g: Globals, scan: PointerScan, older: OlderBytes)
    requires size >= 2 && Placed("mapaddr=" + s, end, tail, size)
    ensures if scan(s) then GoesOn("mapaddr=" + s, end, tail, size, g, g.(mapaddr := true), scan, older)
            else GivesUp("mapaddr=" + s, end, tail, size, g, scan, older)
  {
    Behind(MAPADDR, s, Seen(end));
    KeywordMapaddr(s + Seen(end));
    OneLineTail(MAPADDR, s);
    UpToEnd(s, Seen(end));
    ByParser(MAPADDR + s, end, tail, size, g, ParseLine(MAPADDR + s + Seen(end), g, scan), scan, older);
  }

  /** A map size is taken over modulo 2^64. */
  lemma MapsizeLineWith(s: Bytes, n: int, spaces: Bytes, sign: Bytes, zeros: Bytes, rest: Bytes,
                        end: Bytes, tail: Bytes, size: nat, g: Globals, scan: PointerScan, older: OlderBytes)
    requires size >= 2 && Placed("mapsize=" + s, end, tail, size) && HasNumber(s, n, spaces, sign, zeros, rest)
    ensures GoesOn("mapsize=" + s, end, tail, size, g, g.(mapsize := n % 0x1_0000_0000_0000_0000), scan, older)
  {
    ScanNumber(s, n, spaces, sign, zeros, rest);
    ParsedMapsize(s, Seen(end), g, scan);
    ByParser(MAPSIZE + s, end, tail, size, g, ParseLine(MAPSIZE + s + Seen(end), g, scan), scan, older);
  }

  lemma ParsedMapsize(s: Bytes, end: Bytes, g: Globals, scan: PointerScan)
    requires OneLine(MAPSIZE + s) && (end == [NEWLINE] || end == [])
    ensures ParseLine(MAPSIZE + s + end, g, scan)
         == if ScanInt(s).Some? then Next(g.(mapsize := ScanInt(s).value % 0x1_0000_0000_0000_0000)) else Exit
  {
    Behind(MAPSIZE, s, end);
    KeywordMapsize(s + end);
    OneLineTail(MAPSIZE, s);
    UpToEnd(s, end);
  }

  /** Without a number the program gives up. */
  lemma MapsizeLineWithout(s: Bytes, spaces: Bytes, sign: Bytes, rest: Bytes,
                           end: Bytes, tail: Bytes, size: nat, g: Globals, scan: PointerScan, older: OlderBytes)
    requires size >= 2 && Placed("mapsize=" + s, end, tail, size) && HasNoNumber(s, spaces, sign, rest)
    ensures GivesUp("mapsize=" + s, end, tail, size, g, scan, older)
  {
    ScanNoNumber(s, spaces, sign, rest);
    ParsedMapsize(s, Seen(end), g, scan);
    ByParser(MAPSIZE + s, end, tail, size, g, Exit, scan, older);
  }

  /** A number of readers is taken over modulo 2^32. */
  lemma MaxreadersLineWith(s: Bytes, n: int, spaces: Bytes, sign: Bytes, zeros: Bytes, rest: Bytes,
                           end: Bytes, tail: Bytes, size: nat, g: Globals, scan: PointerScan, older: OlderBytes)
    requires size >= 2 && Placed("maxreaders=" + s, end, tail, size) && HasNumber(s, n, spaces, sign, zeros, rest)
    ensures GoesOn("maxreaders=" + s, end, tail, size, g, g.(maxreaders := n % 0x1_0000_0000), scan, older)
  {
    ScanNumber(s, n, spaces, sign, zeros, rest);
    ParsedMaxreaders(s, Seen(end), g, scan);
    ByParser(MAXREADERS + s, end, tail, size, g, ParseLine(MAXREADERS + s + Seen(end), g, scan), scan, older);
  }

  lemma ParsedMaxreaders(s: Bytes, end: Bytes, g: Globals, scan: PointerScan)
    requires OneLine(MAXREADERS + s) && (end == [NEWLINE] || end == [])
    ensures ParseLine(MAXREADERS + s + end, g, scan)
         == if ScanInt(s).Some? then Next(g.(maxreaders := ScanInt(s).value % 0x1_0000_0000)) else Exit
  {
    Behind(MAXREADERS, s, end);
    KeywordMaxreaders(s + end);
    OneLineTail(MAXREADERS, s);
    UpToEnd(s, end);
  }

  lemma MaxreadersLineWithout(s: Bytes, spaces: Bytes, sign: Bytes, rest: Bytes,
                              end: Bytes, tail: Bytes, size: nat, g: Globals, scan: PointerScan, older: OlderBytes)
    requires size >= 2 && Placed("maxreaders=" + s, end, tail, size) && HasNoNumber(s, spaces, sign, rest)
    ensures GivesUp("maxreaders=" + s, end, tail, size, g, scan, older)
  {
    ScanNoNumber(s, spaces, sign, rest);
    ParsedMaxreaders(s, Seen(end), g, scan);
    ByParser(MAXREADERS + s, end, tail, size, g, Exit, scan, older);
  }

  /** The names of the six table flags, by bit number. */
  const FLAG_NAMES: map<nat, Bytes> :=
    map[1 := "reversekey", 2 := "dupsort", 3 := "integerkey", 4 := "dupfixed", 5 := "integerdup", 6 := "reversedup"]

  /** A flag name and `=` set the flag, whatever follows. */
  lemma FlagLine(bit: nat, s: Bytes, end: Bytes, tail: Bytes, size: nat, g: Globals,
                 scan: PointerScan, older: OlderBytes)
    requires size >= 2 && 1 <= bit <= 6 && Placed(FLAG_NAMES[bit] + "=" + s, end, tail, size)
    ensures GoesOn(FLAG_NAMES[bit] + "=" + s, end, tail, size, g, g.(flags := g.flags + {bit}), scan, older)
  {
    ParsedFlag(bit, FLAG_NAMES[bit] + "=" + s + Seen(end), g, scan);
    ByParser(FLAG_NAMES[bit] + "=" + s, end, tail, size, g, Next(g.(flags := g.flags + {bit})), scan, older);
  }

  lemma ParsedFlag(bit: nat, line: Bytes, g: Globals, scan: PointerScan)
    requires 1 <= bit <= 6 && FLAG_NAMES[bit] + "=" <= line
    ensures ParseLine(line, g, scan) == Next(g.(flags := g.flags + {bit}))
  {
    FlagOfTable(bit);
    FindFlagWith(bit - 1, line, 0);
    FlagFound(line, g, bit - 1);
    FlagNameStarts(bit, line);
    ParseOther(line, g, scan);
  }

  lemma FlagOfTable(bit: nat)
    requires 1 <= bit <= 6
    ensures DBFLAGS[bit - 1] == FlagBit(bit, FLAG_NAMES[bit])
  {
  }

  lemma FlagNameStarts(bit: nat, line: Bytes)
    requires 1 <= bit <= 6 && FLAG_NAMES[bit] <= line
    ensures |line| >= 2 && line[0] in {'r', 'd', 'i'} && (line[0] == 'd' ==> line[1] != 'a')
  {
    assert line[0] == FLAG_NAMES[bit][0] && line[1] == FLAG_NAMES[bit][1];
  }

  lemma {:induction false} FindFlagWith(i: nat, line: Bytes, j: nat)
    requires j <= i < |DBFLAGS| && DBFLAGS[i].name + ['='] <= line
    ensures FindFlag(line, j) == i
    decreases i - j
  {
    if j < i {
      FlagNamesApart(i, j);
      var k := Apart(i, j);
      assert line[k] == (DBFLAGS[i].name + ['='])[k] == DBFLAGS[i].name[k];
      Differs(DBFLAGS[j].name + ['='], line, k);
      FindFlagWith(i, line, j + 1);
    }
  }

  /** The texts a line may start with to be known. */
  ghost predicate KnownLine(line: Bytes) {
    || "VERSION=" <= line || "HEADER=END" <= line || "format=" <= line || "database=" <= line || "type=" <= line
    || "mapaddr=" <= line || "mapsize=" <= line || "maxreaders=" <= line
    || exists bit :: 1 <= bit <= 6 && FLAG_NAMES[bit] + "=" <= line
  }

  /** An unknown line is ignored if it has a `=`; if not, what lies behind it in the buffer decides whether
      the program gives up. */
  lemma UnknownLine(line: Bytes, end: Bytes, tail: Bytes, size: nat, g: Globals, scan: PointerScan, older: OlderBytes)
    requires size >= 2 && Placed(line, end, tail, size) && !KnownLine(line)
    ensures if '=' in line || older(|tail|) then GoesOn(line, end, tail, size, g, g, scan, older)
            else GivesUp(line, end, tail, size, g, scan, older)
  {
    NoKeywordBeforeEnd(line, Seen(end));
    forall i | 0 <= i < |DBFLAGS| ensures !(DBFLAGS[i].name + ['='] <= line + Seen(end)) {
      assert DBFLAGS[i].name == FLAG_NAMES[i + 1];
      assert FLAG_NAMES[i + 1] + "=" == DBFLAGS[i].name + ['='];
      FlagNameIsPlain(i);
      PrefixBeforeEnd(DBFLAGS[i].name + ['='], line, Seen(end));
    }
    NoFlagFrom(line + Seen(end), 0);
    ParseWithoutKeyword(line + Seen(end), g, scan);
    assert '=' in line + Seen(end) <==> '=' in line;
    ByParser(line, end, tail, size, g, if '=' in line then Next(g) else Stale, scan, older);
  }

  lemma FlagNameIsPlain(i: nat)
    requires i < |DBFLAGS|
    ensures forall k :: 0 <= k <= |DBFLAGS[i].name| ==> (DBFLAGS[i].name + ['='])[k] != NEWLINE
  {
  }

  lemma NoKeywordBeforeEnd(line: Bytes, end: Bytes)
    requires (end == [NEWLINE] || end == []) && !KnownLine(line)
    ensures KeywordOf(line + end) == NoKeyword
  {
    PrefixBeforeEnd(VERSION, line, end);
    PrefixBeforeEnd(HEADER_END, line, end);
    PrefixBeforeEnd(FORMAT, line, end);
    PrefixBeforeEnd(DATABASE, line, end);
    PrefixBeforeEnd(TYPE, line, end);
    PrefixBeforeEnd(MAPADDR, line, end);
    PrefixBeforeEnd(MAPSIZE, line, end);
    PrefixBeforeEnd(MAXREADERS, line, end);
  }

  lemma {:induction false} NoFlagFrom(line: Bytes, j: nat)
    requires j <= |DBFLAGS| && forall i :: 0 <= i < |DBFLAGS| ==> !(DBFLAGS[i].name + ['='] <= line)
    ensures FindFlag(line, j) == |DBFLAGS|
    decreases |DBFLAGS| - j
  {
    if j < |DBFLAGS| { NoFlagFrom(line, j + 1); }
  }

  /** `HEADER=END` completes the header, whatever follows on its line. */
  lemma EndLine(s: Bytes, end: Bytes, tail: Bytes, size: nat, g: Globals, scan: PointerScan, older: OlderBytes)
    requires size >= 2 && Placed("HEADER=END" + s, end, tail, size)
    ensures ParseHeader("HEADER=END" + s + end + tail, size, g, LineParserFor(scan, older))
         == HeaderResult.Parsed(tail, g)
  {
    Behind(HEADER_END, s, Seen(end));
    KeywordEnd(s + Seen(end));
    ByParser(HEADER_END + s, end, tail, size, g, Complete, scan, older);
  }

  /** So does the end of the input. */
  lemma EndOfHeaderInput(size: nat, g: Globals, p: LineParser)
    requires size >= 2
    ensures ParseHeader([], size, g, p) == HeaderResult.Parsed([], g)
  {
  }
}
