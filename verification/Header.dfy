/** The section header of a dump: the lines `dumpit` prints (mdb_dump.c) and the line-by-line parser
    `readhdr` (mdb_load.c). */
module Header {
  import opened CTypes
  import opened Encoding
  import opened LineReader

  // ---------------------------------------------------------------- numbers

  predicate IsDigit(c: Byte) { '0' <= c <= '9' }

  predicate IsSpace(c: Byte) { c == ' ' || '\t' <= c <= '\r' }

  /** A number in decimal, without leading zeros. */
  function Decimal(n: nat): Bytes {
    if n < 10 then [HexDigit(n)] else Decimal(n / 10) + [HexDigit(n % 10)]
  }

  function DigitsValue(s: Bytes, acc: nat): nat {
    if s == [] || !IsDigit(s[0]) then acc
    else DigitsValue(s[1..], 10 * acc + (s[0] as int - '0' as int))
  }

  function SkipSpaces(s: Bytes): Bytes {
    if s != [] && IsSpace(s[0]) then SkipSpaces(s[1..]) else s
  }

  /** What `sscanf` and `atoi` find: white space, a sign, digits; `None` when there is no digit. */
  function ScanInt(s: Bytes): Option<int> {
    var t := SkipSpaces(s);
    var signed := t != [] && (t[0] == '-' || t[0] == '+');
    var u := if signed then t[1..] else t;
    if u == [] || !IsDigit(u[0]) then None
    else Some(if signed && t[0] == '-' then 0 - DigitsValue(u, 0) as int else DigitsValue(u, 0) as int)
  }

  lemma HexDigitIsDigit(n: int)
    requires 0 <= n < 10
    ensures IsDigit(HexDigit(n)) && HexDigit(n) as int - '0' as int == n
  {
    assert HexDigit(n) == "0123456789"[n];
  }

  lemma {:induction false} DecimalIsDigits(n: nat)
    ensures Decimal(n) != [] && forall k :: 0 <= k < |Decimal(n)| ==> IsDigit(Decimal(n)[k])
  {
    if n < 10 {
      HexDigitIsDigit(n);
    } else {
      DecimalIsDigits(n / 10);
      HexDigitIsDigit(n % 10);
    }
  }

  lemma {:induction false} DigitsValueSplit(a: Bytes, b: Bytes, acc: nat)
    requires forall k :: 0 <= k < |a| ==> IsDigit(a[k])
    ensures DigitsValue(a + b, acc) == DigitsValue(b, DigitsValue(a, acc))
  {
    if a == [] {
      assert a + b == b;
    } else {
      assert (a + b)[1..] == a[1..] + b;
      DigitsValueSplit(a[1..], b, 10 * acc + (a[0] as int - '0' as int));
    }
  }

  lemma {:induction false} DecimalValue(n: nat)
    ensures DigitsValue(Decimal(n), 0) == n
  {
    if n < 10 {
      HexDigitIsDigit(n);
      assert Decimal(n)[1..] == [];
    } else {
      DecimalValue(n / 10);
      DecimalIsDigits(n / 10);
      HexDigitIsDigit(n % 10);
      var last := [HexDigit(n % 10)];
      DigitsValueSplit(Decimal(n / 10), last, 0);
      assert last[1..] == [];
    }
  }

  /** Scanning undoes printing. */
  lemma ScanOfDecimal(n: nat)
    ensures ScanInt(Decimal(n)) == Some(n)
  {
    DecimalIsDigits(n);
    DecimalValue(n);
    assert IsDigit(Decimal(n)[0]);
  }

  function Pow10(k: nat): nat { if k == 0 then 1 else 10 * Pow10(k - 1) }

  lemma {:induction false} DecimalLength(n: nat, k: nat)
    requires k >= 1 && n < Pow10(k)
    ensures |Decimal(n)| <= k
  {
    if n >= 10 { DecimalLength(n / 10, k - 1); }
  }

  lemma DecimalOfSize(n: nat)
    requires n < SIZE_LIMIT
    ensures |Decimal(n)| <= 20
  {
    assert Pow10(5) == 100000;
    assert Pow10(10) == 10000000000;
    assert Pow10(15) == 1000000000000000;
    assert Pow10(20) == 100000000000000000000;
    DecimalLength(n, 20);
  }

  // ---------------------------------------------------------------- flags

  /** A C flag word, as the set of its bits: `x & y` is the intersection, `x | y` the union. */
  type Flags = set<nat>

  /** An entry of the table: the number of the flag's bit, and its name. */
  datatype FlagBit = FlagBit(bit: nat, name: Bytes)

  /** `MDB_DUPSORT` is 0x04. */
  const DUPSORT: nat := 2
  const NO_FLAGS: Flags := {}
  /** 0x7e, the bits with a name. */
  const TABLE_BITS: Flags := {1, 2, 3, 4, 5, 6}

  /** `dbflags`, the same table in both programs. */
  const DBFLAGS: seq<FlagBit> :=
    [FlagBit(1, "reversekey"), FlagBit(2, "dupsort"), FlagBit(3, "integerkey"),
     FlagBit(4, "dupfixed"), FlagBit(5, "integerdup"), FlagBit(6, "reversedup")]

  /** The first entry of the table, from `i` on, whose name and a `=` start the line. */
  function FindFlag(line: Bytes, i: nat): (r: nat)
    requires i <= |DBFLAGS|
    ensures i <= r <= |DBFLAGS|
    decreases |DBFLAGS| - i
  {
    if i == |DBFLAGS| || DBFLAGS[i].name + ['='] <= line then i else FindFlag(line, i + 1)
  }

  // ---------------------------------------------------------------- parsing one line

  /** What `readhdr` leaves in the program's globals. */
  datatype Globals = Globals(flags: Flags, asText: bool, subname: Option<Bytes>,
                             mapsize: nat, maxreaders: nat, mapaddr: bool)

  /** After a line: go on, the header is complete, or the program exits. For an unknown line without
      `=` it depends on whether the search for one, which runs on behind the line, finds it there. */
  datatype Parsed = Next(g: Globals) | Complete | Exit | Stale

  /** The text up to the newline, which the program overwrites with a NUL. */
  function UpToNewline(s: Bytes): Bytes {
    if s == [] || s[0] == NEWLINE then [] else [s[0]] + UpToNewline(s[1..])
  }

  const VERSION: Bytes := "VERSION="
  const HEADER_END: Bytes := "HEADER=END"
  const FORMAT: Bytes := "format="
  const DATABASE: Bytes := "database="
  const TYPE: Bytes := "type="
  const MAPADDR: Bytes := "mapaddr="
  const MAPSIZE: Bytes := "mapsize="
  const MAXREADERS: Bytes := "maxreaders="
  const PRINT_FORMAT: Bytes := "print"
  const BYTE_FORMAT: Bytes := "bytevalue"
  const BTREE: Bytes := "btree"

  /** Whether `sscanf` with `%p` accepts a text. */
  type PointerScan = Bytes -> bool

  datatype Keyword = Version | HeaderEnd | Format | DatabaseName | Type | MapAddr | MapSize | MaxReaders | NoKeyword

  /** The first keyword that starts the line, in the order of the tests. */
  function KeywordOf(line: Bytes): Keyword {
    if VERSION <= line then Version
    else if HEADER_END <= line then HeaderEnd
    else if FORMAT <= line then Format
    else if DATABASE <= line then DatabaseName
    else if TYPE <= line then Type
    else if MAPADDR <= line then MapAddr
    else if MAPSIZE <= line then MapSize
    else if MAXREADERS <= line then MaxReaders
    else NoKeyword
  }

  /** The flag table is consulted for lines without a keyword. */
  function ParseFlag(line: Bytes, g: Globals): Parsed {
    var i := FindFlag(line, 0);
    if i < |DBFLAGS| then Next(g.(flags := g.flags + {DBFLAGS[i].bit}))
    else if '=' in line then Next(g) else Stale
  }

  function ParseLine(line: Bytes, g: Globals, scanPointer: PointerScan): Parsed {
    match KeywordOf(line)
    case Version =>
      var v := ScanInt(line[|VERSION|..]);
      if v.Some? && v.value > 3 then Exit else Next(g)
    case HeaderEnd => Complete
    case Format =>
      if PRINT_FORMAT <= line[|FORMAT|..] then Next(g.(asText := true))
      else if BYTE_FORMAT <= line[|FORMAT|..] then Next(g) else Exit
    case DatabaseName => Next(g.(subname := Some(UpToNewline(line[|DATABASE|..]))))
    case Type => if BTREE <= line[|TYPE|..] then Next(g) else Exit
    case MapAddr =>
      if scanPointer(UpToNewline(line[|MAPADDR|..])) then Next(g.(mapaddr := true)) else Exit
    case MapSize =>
      var v := ScanInt(UpToNewline(line[|MAPSIZE|..]));
      if v.Some? then Next(g.(mapsize := v.value % SIZE_LIMIT)) else Exit
    case MaxReaders =>
      var v := ScanInt(UpToNewline(line[|MAXREADERS|..]));
      if v.Some? then Next(g.(maxreaders := v.value % UINT_LIMIT)) else Exit
    case NoKeyword => ParseFlag(line, g)
  }

  lemma ParseWithoutKeyword(line: Bytes, g: Globals, scanPointer: PointerScan)
    requires KeywordOf(line) == NoKeyword
    ensures ParseLine(line, g, scanPointer) == ParseFlag(line, g)
  {
  }

  // ---------------------------------------------------------------- parsing the header

  /** What the line buffer holds behind a line: older text, or bytes never written. For each amount of
      input left, whether a search for `=` that leaves the line finds one there. */
  type OlderBytes = nat -> bool

  /** The line parser as a value: the loop does not depend on what it does with a line. */
  datatype LineParser = LineParser(parse: (Bytes, Globals) -> Parsed, older: OlderBytes)

  function LineParserFor(scanPointer: PointerScan, older: OlderBytes): LineParser {
    LineParser((line, g) => ParseLine(line, g, scanPointer), older)
  }

  datatype HeaderResult = Parsed(rest: Bytes, g: Globals) | Exited

  /** What the parser makes of a line with `left` bytes of input behind it. An unknown line is ignored
      when `=` is found. */
  function Handled(p: LineParser, line: Bytes, g: Globals, left: nat): (q: Parsed)
    ensures !q.Stale?
  {
    var q := p.parse(line, g);
    if q.Stale? then if p.older(left) then Next(g) else Exit else q
  }

  lemma HandledByParseLine(scanPointer: PointerScan, older: OlderBytes, line: Bytes, g: Globals, left: nat)
    requires !ParseLine(line, g, scanPointer).Stale?
    ensures Handled(LineParserFor(scanPointer, older), line, g, left) == ParseLine(line, g, scanPointer)
  {
  }

  /** The loop of `readhdr`, a line per `fgets`; it also stops at the end of the input. */
  ghost function ParseHeader(rest: Bytes, size: nat, g: Globals, p: LineParser): HeaderResult
    requires size >= 2
    decreases |rest|
  {
    if rest == [] then HeaderResult.Parsed([], g)
    else
      var chunk := Chunk(rest, size - 1);
      var rest' := rest[|chunk|..];
      match Handled(p, CString(chunk), g, |rest'|)
      case Next(g') => ParseHeader(rest', size, g', p)
      case Complete => HeaderResult.Parsed(rest', g)
      case Exit => Exited
  }

  /** How the header goes on behind a line. */
  ghost function AfterLine(q: Parsed, rest: Bytes, size: nat, g: Globals, p: LineParser): HeaderResult
    requires size >= 2
  {
    if q.Next? then ParseHeader(rest, size, q.g, p)
    else if q.Complete? then HeaderResult.Parsed(rest, g)
    else Exited
  }

  lemma ParseHeaderStep(rest: Bytes, size: nat, g: Globals, p: LineParser, line: Bytes, rest': Bytes)
    requires size >= 2 && rest != []
    requires rest' == rest[|Chunk(rest, size - 1)|..] && line == CString(Chunk(rest, size - 1))
    ensures ParseHeader(rest, size, g, p) == AfterLine(Handled(p, line, g, |rest'|), rest', size, g, p)
  {
  }

  datatype HeaderStatus = HeaderDone(g: Globals) | HeaderExit

  /** One turn of the loop: reads a line and handles it. */
  method ReadHeaderLine(stream: Stream, dbuf: LineBuffer, g: Globals, p: LineParser) returns (more: bool, q: Parsed)
    requires stream.Valid() && dbuf.Valid()
    modifies stream, dbuf.data
    ensures stream.Valid()
    ensures more <==> old(stream.Rest()) != []
    ensures !more ==> stream.Rest() == []
    ensures more ==> |stream.Rest()| < |old(stream.Rest())| && !q.Stale?
    ensures more ==> ParseHeader(old(stream.Rest()), dbuf.size, g, p) == AfterLine(q, stream.Rest(), dbuf.size, g, p)
  {
    ghost var rest := stream.Rest();
    var line;
    more, line := ReadString(stream, dbuf);
    q := Exit;
    if more {
      q := Handled(p, line, g, stream.Left());
      ParseHeaderStep(rest, dbuf.size, g, p, line, stream.Rest());
    }
  }

  method ReadHdr(stream: Stream, dbuf: LineBuffer, g0: Globals, p: LineParser) returns (r: HeaderStatus)
    requires stream.Valid() && dbuf.Valid()
    modifies stream, dbuf.data
    ensures stream.Valid()
    ensures match ParseHeader(old(stream.Rest()), dbuf.size, g0.(flags := NO_FLAGS), p)
            case Parsed(rest, g) => r == HeaderDone(g) && stream.Rest() == rest
            case Exited => r == HeaderExit
    ensures r.HeaderDone? ==> |stream.Rest()| <= |old(stream.Rest())|
  {
    var g := g0.(flags := NO_FLAGS);
    ghost var whole := ParseHeader(stream.Rest(), dbuf.size, g, p);
    while true
      invariant stream.Valid() && |stream.Rest()| <= |old(stream.Rest())|
      invariant ParseHeader(stream.Rest(), dbuf.size, g, p) == whole
      decreases |stream.Rest()|
    {
      var more, q := ReadHeaderLine(stream, dbuf, g, p);
      if !more { return HeaderDone(g); }
      match q {
        case Next(g') => g := g';
        case Complete => return HeaderDone(g);
        case Exit => return HeaderExit;
      }
    }
  }
}
