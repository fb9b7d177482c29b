/** The sections of an input, read off its lines: what a section takes over from the one before it
    (`main` of mdb_load.c). */
module InputLines {
  import opened CTypes
  import opened Encoding
  import opened LineReader
  import opened Header
  import opened Load
  import opened Batching
  import opened InputRun
  import opened RoundTrip
  import opened RecordLines
  import HeaderLines
  import Dump

  /** Records, given by their lines, and the closing line of their section. */
  lemma RecordsOfSectionLines(asText: bool, lines: seq<Bytes>, rs: seq<Dump.Record>, tail: Bytes,
                              ksize: nat, dsize: nat)
    returns (ksize': nat, dsize': nat)
    requires ksize >= 10 && dsize >= 2 && LinesOf(asText, lines, rs)
    ensures ksize' >= ksize && dsize' >= dsize
    ensures ReadAll(InputOf(false, lines) + ("DATA=END" + [NEWLINE] + tail), ksize, dsize, asText, false)
         == Records(rs, AtDataEnd, tail, ksize', dsize')
  {
    var end := "DATA=END" + [NEWLINE] + tail;
    ksize', dsize' := ReadAllOfLines(asText, false, lines, rs, end, ksize, dsize);
    ReadDataEnd(tail, ksize', asText);
    assert rs + [] == rs;
  }

  /** A header that sets `g1`, the key and data lines of some records and a closing line make up one section:
      these records, read under `g1`, and the next section starts from `g1`. */
  lemma PartOfLines(opts: Options, parse: LineParser, g: Globals, head: Bytes, g1: Globals, lines: seq<Bytes>,
                    rs: seq<Dump.Record>, tail: Bytes, ksize: nat, dsize: nat) returns (ksize': nat, dsize': nat)
    requires !opts.nohdr && ksize >= 10 && dsize >= 2 && LinesOf(g1.asText, lines, rs)
    requires var body := InputOf(false, lines) + ("DATA=END" + [NEWLINE] + tail);
      ParseHeader(head + body, dsize, g.(flags := {}), parse) == HeaderResult.Parsed(body, g1)
    ensures ksize' >= ksize && dsize' >= dsize
    ensures var body := InputOf(false, lines) + ("DATA=END" + [NEWLINE] + tail);
      var more := ReadParts(opts, parse, g1, tail, ksize', dsize');
      ReadParts(opts, parse, g, head + body, ksize, dsize) == Parts([Part(g1, rs)] + more.parts, more.closing)
  {
    ksize', dsize' := RecordsOfSectionLines(g1.asText, lines, rs, tail, ksize, dsize);
  }

  /** A section with nothing in its header takes over the database name and the format of the section before
      it, but none of its flags. */
  lemma EmptyHeaderInherits(opts: Options, scan: PointerScan, older: OlderBytes, g: Globals, lines: seq<Bytes>,
                            rs: seq<Dump.Record>, tail: Bytes, ksize: nat, dsize: nat)
    returns (ksize': nat, dsize': nat)
    requires !opts.nohdr && ksize >= 10 && dsize >= 20 && LinesOf(g.asText, lines, rs)
    ensures ksize' >= ksize && dsize' >= dsize
    ensures var p, body := LineParserFor(scan, older), InputOf(false, lines) + ("DATA=END" + [NEWLINE] + tail);
      var more := ReadParts(opts, p, g.(flags := {}), tail, ksize', dsize');
      ReadParts(opts, p, g, "HEADER=END" + [NEWLINE] + body, ksize, dsize)
        == Parts([Part(g.(flags := {}), rs)] + more.parts, more.closing)
  {
    var p, body := LineParserFor(scan, older), InputOf(false, lines) + ("DATA=END" + [NEWLINE] + tail);
    var end: Bytes := "HEADER=END";
    assert end + [] == end;
    HeaderLines.EndLine([], [NEWLINE], body, dsize, g.(flags := {}), scan, older);
    ksize', dsize' := PartOfLines(opts, p, g, end + [NEWLINE], g.(flags := {}), lines, rs, tail, ksize, dsize);
  }

  /** Lines that the end of the input follows make up the last section. */
  lemma LastPartOfLines(opts: Options, parse: LineParser, g: Globals, head: Bytes, g1: Globals, lines: seq<Bytes>,
                        rs: seq<Dump.Record>, ksize: nat, dsize: nat)
    requires !opts.nohdr && ksize >= 10 && dsize >= 2 && LinesOf(g1.asText, lines, rs)
    requires ParseHeader(head + InputOf(false, lines), dsize, g.(flags := {}), parse)
          == HeaderResult.Parsed(InputOf(false, lines), g1)
    ensures ReadParts(opts, parse, g, head + InputOf(false, lines), ksize, dsize) == Parts([Part(g1, rs)], Closed)
  {
    var ksize', dsize' := ReadAllOfLines(g1.asText, false, lines, rs, [], ksize, dsize);
    assert InputOf(false, lines) + [] == InputOf(false, lines) && rs + [] == rs;
    EmptyInput(ksize', dsize', g1.asText, false);
  }
}
