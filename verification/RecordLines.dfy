/** What the record reader makes of the lines of an input, dumped or not, with and without `-T`
    (`readline` and the record loop of mdb_load.c). */
module RecordLines {
  import opened CTypes
  import opened Encoding
  import opened LineReader
  import opened Header
  import opened Load
  import opened Batching
  import opened InputRun
  import opened WholeRun
  import Dump

  /** With `-T` a record line starts with its first byte, otherwise a space comes first. */
  function Lead(nohdr: bool): Bytes {
    if nohdr then [] else [' ']
  }

  lemma BehindLead(nohdr: bool, body: Bytes, size: nat, asText: bool)
    requires size >= 2
    ensures ReadRecord(Lead(nohdr) + body, size, asText, nohdr) == ReadBody(body, size, asText)
  {
    if nohdr {
      assert [] + body == body;
    } else {
      assert ([' '] + body)[1..] == body;
    }
  }

  // ---------------------------------------------------------------- a line of its own

  /** What a record line stands for, in the format of its section. */
  ghost predicate StandsFor(asText: bool, code: Bytes, v: Bytes) {
    OneLine(code) && (if asText then DecodeText(code) else DecodeHex(code)) == Some(v)
  }

  /** A line that stands for a value is read as it, of whatever length, with the rest of the input left. */
  lemma GoodLine(code: Bytes, v: Bytes, tail: Bytes, size: nat, asText: bool, nohdr: bool)
    requires size >= 2 && StandsFor(asText, code, v)
    ensures var r := ReadRecord(Lead(nohdr) + (code + [NEWLINE] + tail), size, asText, nohdr);
      r.Item? && r.value == v && r.rest == tail && r.size >= size
  {
    BehindLead(nohdr, code + [NEWLINE] + tail, size, asText);
    if |code| < size - 1 {
      ReadShortBody(code, v, tail, size, asText);
    } else {
      ReadLongBody(code, v, tail, size, asText);
    }
  }

  /** A size doubled until it is at least `n`. */
  ghost function DoubledTo(size: nat, n: nat): nat
    requires size > 0
    decreases n - size
  {
    if n <= size then size else DoubledTo(2 * size, n)
  }

  ghost predicate HasSize(line: Assembled, size: nat) {
    line.Line? && line.size == size
  }

  /** Reading a line doubles the buffer until it holds the line with its newline and a NUL, and no further. */
  lemma BufferFitsLine(code: Bytes, v: Bytes, tail: Bytes, size: nat, asText: bool, nohdr: bool)
    requires size >= 2 && StandsFor(asText, code, v)
    ensures var r := ReadRecord(Lead(nohdr) + (code + [NEWLINE] + tail), size, asText, nohdr);
      r.Item? && r.size == DoubledTo(size, |code| + 2)
  {
    BehindLead(nohdr, code + [NEWLINE] + tail, size, asText);
    if |code| < size - 1 {
      ReadShortBody(code, v, tail, size, asText);
    } else {
      WholeLongLine(code, tail, size);
      LongLineSize(code, tail, size);
    }
  }

  lemma LongLineSize(code: Bytes, tail: Bytes, size: nat)
    requires size >= 2 && OneLine(code) && size - 1 <= |code|
    ensures HasSize(WholeLine(code + [NEWLINE] + tail, size), DoubledTo(size, |code| + 2))
  {
    PiecesSize(code, tail, size);
    FirstPieceOfLine(code, tail, size);
  }

  lemma PiecesSize(code: Bytes, tail: Bytes, size: nat)
    requires size >= 2 && OneLine(code) && size - 1 <= |code|
    ensures code[..size - 1] != []
    ensures HasSize(Assemble(code[..size - 1], code[size - 1..] + [NEWLINE] + tail, size), DoubledTo(size, |code| + 2))
  {
    TwoPieces(code, size - 1);
    AssembledSize(code[..size - 1], code[size - 1..], tail, size);
  }

  lemma TwoPieces(code: Bytes, n: nat)
    requires OneLine(code) && 0 < n <= |code|
    ensures var first := code[..n]; first != [] && first[|first| - 1] != NEWLINE && |first| == n
    ensures var more := code[n..]; OneLine(more) && |more| == |code| - n
  {
    assert code == code[..n] + code[n..];
    PiecesOfLine(code, code[..n], code[n..]);
  }

  /** A full buffer, and the text that is still to come. */
  lemma {:induction false} AssembledSize(acc: Bytes, text: Bytes, tail: Bytes, size: nat)
    requires acc != [] && acc[|acc| - 1] != NEWLINE && OneLine(text) && |acc| == size - 1
    ensures HasSize(Assemble(acc, text + [NEWLINE] + tail, size), DoubledTo(size, |acc| + |text| + 2))
    decreases |text|
  {
    if |text| < size {
      AssembleLastPiece(acc, text, tail, size);
    } else {
      var acc', text' := acc + text[..size], text[size..];
      PieceOfLine(acc, text, size);
      AssembledSize(acc', text', tail, 2 * size);
      AssemblePiece(acc, text, tail, size);
    }
  }

  /** A line that does not decode ends the input. */
  lemma BadLine(code: Bytes, tail: Bytes, size: nat, asText: bool, nohdr: bool)
    requires size >= 2 && OneLine(code) && (if asText then DecodeText(code) else DecodeHex(code)) == None
    ensures ReadRecord(Lead(nohdr) + (code + [NEWLINE] + tail), size, asText, nohdr) == EndOfInput
  {
    BehindLead(nohdr, code + [NEWLINE] + tail, size, asText);
    if |code| < size - 1 {
      WholeShortLine(code, tail, size);
    } else {
      WholeLongLine(code, tail, size);
    }
  }

  /** So does a line that the input breaks off. */
  lemma CutLine(code: Bytes, size: nat, asText: bool, nohdr: bool)
    requires size >= 2 && OneLine(code)
    ensures ReadRecord(Lead(nohdr) + code, size, asText, nohdr) == EndOfInput
  {
    BehindLead(nohdr, code, size, asText);
    NoWholeLine(code, size);
  }

  /** And one that starts with a NUL. */
  lemma NulLine(tail: Bytes, size: nat, asText: bool, nohdr: bool)
    requires size >= 2
    ensures ReadRecord(Lead(nohdr) + ([NUL] + tail), size, asText, nohdr) == EndOfInput
  {
    BehindLead(nohdr, [NUL] + tail, size, asText);
    var chunk := Chunk([NUL] + tail, size - 1);
    assert chunk[0] == NUL;
  }

  /** A NUL inside a line hides the rest of it, the newline included: the next line is joined to what is
      in front of the NUL. */
  lemma NulJoinsLines(first: Bytes, hidden: Bytes, next: Bytes, v: Bytes, tail: Bytes, size: nat,
                      asText: bool, nohdr: bool)
    requires OneLine(first) && first != [] && OneLine(next) && |first| + |hidden| + 2 < size
    requires forall k :: 0 <= k < |hidden| ==> hidden[k] != NEWLINE
    requires StandsFor(asText, first + next, v)
    ensures var text := first + [NUL] + hidden + [NEWLINE] + (next + [NEWLINE] + tail);
      var r := ReadRecord(Lead(nohdr) + text, size, asText, nohdr);
      r.Item? && r.value == v && r.rest == tail
  {
    var rest := next + [NEWLINE] + tail;
    BehindLead(nohdr, first + [NUL] + hidden + [NEWLINE] + rest, size, asText);
    NulEndsPiece(first, hidden, rest, size);
    AssembleWholeLine(first, next, tail, size);
  }

  lemma NulEndsPiece(first: Bytes, hidden: Bytes, rest: Bytes, size: nat)
    requires OneLine(first) && first != [] && |first| + |hidden| + 2 < size
    requires forall k :: 0 <= k < |hidden| ==> hidden[k] != NEWLINE
    ensures WholeLine(first + [NUL] + hidden + [NEWLINE] + rest, size) == Assemble(first, rest, size)
  {
    var line := first + [NUL] + hidden;
    ChunkToNewline(line, rest, size - 1);
    CStringToNul(first, hidden + [NEWLINE]);
    assert line + [NEWLINE] == first + [NUL] + (hidden + [NEWLINE]);
    assert (line + [NEWLINE] + rest)[|line + [NEWLINE]|..] == rest;
    LineStarts(line + [NEWLINE] + rest, size, line + [NEWLINE], first, rest);
  }

  /** Without `-T` a line that does not start with a space ends the section if it starts with
      `DATA=END`, and the input otherwise. */
  lemma OtherLine(text: Bytes, tail: Bytes, size: nat, asText: bool)
    requires OneLine(text) && text != [] && text[0] != ' ' && |text| < size
    ensures ReadRecord(text + [NEWLINE] + tail, size, asText, false)
         == if "DATA=END" <= text then EndOfData(tail) else EndOfInput
  {
    var rest := text[1..] + [NEWLINE] + tail;
    assert (text + [NEWLINE] + tail)[1..] == rest;
    ChunkOfShortLine(text[1..], tail, size - 1);
    CStringOfNulFree(text[1..] + [NEWLINE]);
    assert rest[|text[1..] + [NEWLINE]|..] == tail;
    EndMark(text);
  }

  lemma EndMark(text: Bytes)
    requires text != [] && OneLine(text)
    ensures "DATA=END" <= text <==> text[0] == 'D' && "ATA=END" <= text[1..] + [NEWLINE]
  {
    var mark: Bytes := "ATA=END";
    assert "DATA=END" == ['D'] + mark && text == [text[0]] + text[1..];
    PrefixOfLine(mark, text[1..]);
    PrefixBehindFirst('D', mark, text[0], text[1..]);
  }

  lemma PrefixBehindFirst(c: Byte, p: Bytes, d: Byte, s: Bytes)
    ensures [c] + p <= [d] + s <==> c == d && p <= s
  {
    var x, y := [c] + p, [d] + s;
    assert x[0] == c && y[0] == d && x[1..] == p && y[1..] == s;
    if |p| <= |s| { assert y[..|x|] == [d] + s[..|p|]; }
  }

  lemma PrefixOfLine(p: Bytes, s: Bytes)
    requires forall k :: 0 <= k < |p| ==> p[k] != NEWLINE
    ensures p <= s + [NEWLINE] <==> p <= s
  {
    if |s| < |p| {
      assert p[|s|] != (s + [NEWLINE])[|s|];
    } else {
      assert (s + [NEWLINE])[..|p|] == s[..|p|];
    }
  }

  /** An empty line ends the input. */
  lemma EmptyLine(tail: Bytes, size: nat, asText: bool)
    requires size >= 2
    ensures ReadRecord([NEWLINE] + tail, size, asText, false) == EndOfInput
  {
  }

  // ---------------------------------------------------------------- pieces of lines

  /** Of text without a newline `fgets` takes as much as there is, or as there is room for. */
  lemma {:induction false} ChunkWithoutNewline(text: Bytes, max: nat)
    requires forall k :: 0 <= k < |text| ==> text[k] != NEWLINE
    ensures Chunk(text, max) == if |text| <= max then text else text[..max]
  {
    if text != [] && max > 0 {
      ChunkWithoutNewline(text[1..], max - 1);
      assert text == [text[0]] + text[1..];
    }
  }

  /** Of a line that fits, NULs and all, it takes the line. */
  lemma {:induction false} ChunkToNewline(text: Bytes, tail: Bytes, max: nat)
    requires (forall k :: 0 <= k < |text| ==> text[k] != NEWLINE) && |text| < max
    ensures Chunk(text + [NEWLINE] + tail, max) == text + [NEWLINE]
  {
    var rest := text + [NEWLINE] + tail;
    if text != [] {
      assert rest[1..] == text[1..] + [NEWLINE] + tail;
      ChunkToNewline(text[1..], tail, max - 1);
    }
  }

  lemma {:induction false} CStringToNul(first: Bytes, more: Bytes)
    requires forall k :: 0 <= k < |first| ==> first[k] != NUL
    ensures CString(first + [NUL] + more) == first
  {
    if first != [] {
      assert (first + [NUL] + more)[1..] == first[1..] + [NUL] + more;
      CStringToNul(first[1..], more);
    }
  }

  lemma NoWholeLine(code: Bytes, size: nat)
    requires size >= 2 && OneLine(code)
    ensures WholeLine(code, size) == Cut
  {
    var chunk := Chunk(code, size - 1);
    ChunkWithoutNewline(code, size - 1);
    CStringOfNulFree(chunk);
    if chunk != [] { NeverWhole(chunk, code[|chunk|..], size); }
  }

  lemma {:induction false} NeverWhole(acc: Bytes, rest: Bytes, size: nat)
    requires acc != [] && size > 0 && acc[|acc| - 1] != NEWLINE && OneLine(rest)
    ensures Assemble(acc, rest, size) == Cut
    decreases |rest|
  {
    if rest != [] {
      var chunk := Chunk(rest, size);
      ChunkWithoutNewline(rest, size);
      CStringOfNulFree(chunk);
      assert (acc + chunk)[|acc + chunk| - 1] == chunk[|chunk| - 1];
      NeverWhole(acc + chunk, rest[|chunk|..], 2 * size);
    }
  }

  // ---------------------------------------------------------------- alternating key and data lines

  /** Lines with the keys and the data of the records, in turn. */
  ghost predicate LinesOf(asText: bool, lines: seq<Bytes>, rs: seq<Dump.Record>) {
    |lines| == 2 * |rs|
    && forall i :: 0 <= i < |rs| ==>
         StandsFor(asText, lines[2 * i], rs[i].key) && StandsFor(asText, lines[2 * i + 1], rs[i].data)
  }

  /** The lines as an input of the program. */
  ghost function InputOf(nohdr: bool, lines: seq<Bytes>): Bytes {
    if lines == [] then [] else Lead(nohdr) + (lines[0] + [NEWLINE] + InputOf(nohdr, lines[1..]))
  }

  lemma ReadBothOfLines(asText: bool, nohdr: bool, key: Bytes, data: Bytes, r: Dump.Record, tail: Bytes,
                        ksize: nat, dsize: nat)
    requires ksize >= 2 && dsize >= 2 && StandsFor(asText, key, r.key) && StandsFor(asText, data, r.data)
    ensures var rest := Lead(nohdr) + (key + [NEWLINE] + (Lead(nohdr) + (data + [NEWLINE] + tail)));
      var p := ReadBoth(rest, ksize, dsize, asText, nohdr);
      p.Both? && p.r == r && p.rest == tail && p.ksize >= ksize && p.dsize >= dsize
  {
    GoodLine(key, r.key, Lead(nohdr) + (data + [NEWLINE] + tail), ksize, asText, nohdr);
    GoodLine(data, r.data, tail, dsize, asText, nohdr);
  }

  lemma FirstLineOfInput(nohdr: bool, lines: seq<Bytes>, tail: Bytes)
    requires lines != []
    ensures InputOf(nohdr, lines) + tail == Lead(nohdr) + (lines[0] + [NEWLINE] + (InputOf(nohdr, lines[1..]) + tail))
  {
  }

  lemma TwoLinesOfInput(nohdr: bool, lines: seq<Bytes>, tail: Bytes)
    requires |lines| >= 2
    ensures InputOf(nohdr, lines) + tail
         == Lead(nohdr) + (lines[0] + [NEWLINE]
            + (Lead(nohdr) + (lines[1] + [NEWLINE] + (InputOf(nohdr, lines[2..]) + tail))))
  {
    FirstLineOfInput(nohdr, lines, tail);
    FirstLineOfInput(nohdr, lines[1..], tail);
    assert lines[1..][1..] == lines[2..];
  }

  lemma LinesOfTail(asText: bool, lines: seq<Bytes>, rs: seq<Dump.Record>)
    requires rs != [] && LinesOf(asText, lines, rs)
    ensures LinesOf(asText, lines[2..], rs[1..])
    ensures StandsFor(asText, lines[0], rs[0].key) && StandsFor(asText, lines[1], rs[0].data)
  {
    assert StandsFor(asText, lines[2 * 0], rs[0].key) && StandsFor(asText, lines[2 * 0 + 1], rs[0].data);
    forall i | 0 <= i < |rs[1..]|
      ensures StandsFor(asText, lines[2..][2 * i], rs[1..][i].key)
      ensures StandsFor(asText, lines[2..][2 * i + 1], rs[1..][i].data)
    {
      assert StandsFor(asText, lines[2 * (i + 1)], rs[i + 1].key);
      assert StandsFor(asText, lines[2 * (i + 1) + 1], rs[i + 1].data);
    }
  }

  /** `all` is what is read behind the records `rs`, with these in front. */
  ghost predicate Behind(all: Records, rs: seq<Dump.Record>, more: Records) {
    all == more.(records := rs + more.records)
  }

  lemma BehindOneMore(all: Records, inner: Records, rs: seq<Dump.Record>, more: Records)
    requires rs != [] && Behind(inner, rs[1..], more) && all == inner.(records := [rs[0]] + inner.records)
    ensures Behind(all, rs, more)
  {
    assert [rs[0]] + (rs[1..] + more.records) == rs + more.records;
  }

  /** The records of an input are those of its lines, followed by whatever comes behind them. */
  lemma {:induction false} ReadAllOfLines(asText: bool, nohdr: bool, lines: seq<Bytes>, rs: seq<Dump.Record>,
                                          tail: Bytes, ksize: nat, dsize: nat) returns (ksize': nat, dsize': nat)
    requires ksize >= 2 && dsize >= 2 && LinesOf(asText, lines, rs)
    ensures ksize' >= ksize && dsize' >= dsize
    ensures Behind(ReadAll(InputOf(nohdr, lines) + tail, ksize, dsize, asText, nohdr), rs,
                   ReadAll(tail, ksize', dsize', asText, nohdr))
    decreases |rs|
  {
    if rs == [] {
      ksize', dsize' := ksize, dsize;
      assert [] + tail == tail;
      var more := ReadAll(tail, ksize, dsize, asText, nohdr);
      assert [] + more.records == more.records;
    } else {
      LinesOfTail(asText, lines, rs);
      TwoLinesOfInput(nohdr, lines, tail);
      var rest, whole := InputOf(nohdr, lines[2..]) + tail, InputOf(nohdr, lines) + tail;
      ReadBothOfLines(asText, nohdr, lines[0], lines[1], rs[0], rest, ksize, dsize);
      var p := ReadBoth(whole, ksize, dsize, asText, nohdr);
      ksize', dsize' := ReadAllOfLines(asText, nohdr, lines[2..], rs[1..], tail, p.ksize, p.dsize);
      ReadAllStep(whole, ksize, dsize, asText, nohdr, p);
      BehindOneMore(ReadAll(whole, ksize, dsize, asText, nohdr), ReadAll(p.rest, p.ksize, p.dsize, asText, nohdr), rs,
                    ReadAll(tail, ksize', dsize', asText, nohdr));
    }
  }

  lemma ReadAllOfPlainInput(asText: bool, lines: seq<Bytes>, rs: seq<Dump.Record>, ksize: nat, dsize: nat)
    requires ksize >= 2 && dsize >= 2 && LinesOf(asText, lines, rs)
    ensures var all := ReadAll(InputOf(true, lines), ksize, dsize, asText, true);
      all.records == rs && all.ending == AtInputEnd
  {
    var ksize', dsize' := ReadAllOfLines(asText, true, lines, rs, [], ksize, dsize);
    assert InputOf(true, lines) + [] == InputOf(true, lines) && rs + [] == rs;
    EmptyInput(ksize', dsize', asText, true);
  }

  /** A section whose records stop at the end of the input, with an engine that accepts everything. */
  lemma LastSection(e: Engine, opts: Options, g: Globals, log: seq<Event>, rest: Bytes, rs: seq<Dump.Record>,
                    ksize: nat, dsize: nat)
    requires Accepts(e) && ksize >= 2 && dsize >= 2
    requires var all := ReadAll(rest, ksize, dsize, g.asText, opts.nohdr); all.records == rs && all.ending == AtInputEnd
    ensures var r := Section(e, opts, g, log, rest, ksize, dsize);
      r.SectionDone? && r.eof && r.log == log + SectionEvents(opts, g, rs)
  {
    var b := Batch(log, [Open(g.subname, g.flags)], [], 0);
    SectionReadsThenPuts(e, opts, g, b, rest, ksize, dsize);
    AcceptedPutsGoThrough(e, opts, g.flags, b, rs);
    SectionIsPrefixSafe(e, opts, g, log, rest, ksize, dsize);
  }

  /** A `-T` run over key and data lines ends well, and stores exactly their records, in order, in the
      database it was given. */
  lemma PlainRunStoresRecords(e: Engine, opts: Options, parse: LineParser, g: Globals, log: seq<Event>,
                              lines: seq<Bytes>, rs: seq<Dump.Record>, ksize: nat, dsize: nat)
    requires Accepts(e) && opts.nohdr && ksize >= 2 && dsize >= 2 && LinesOf(g.asText, lines, rs)
    ensures var r := LoadFrom(e, opts, parse, g, log, InputOf(true, lines), ksize, dsize);
      && r.Loaded? && log + [Open(g.subname, g.flags)] <= r.log
      && RecordsIn(r.log) == RecordsIn(log) + rs
  {
    ReadAllOfPlainInput(g.asText, lines, rs, ksize, dsize);
    LastSection(e, opts, g, log, InputOf(true, lines), rs, ksize, dsize);
    RecordsOfSection(opts, g, log, rs);
  }

  lemma EmptyInput(ksize: nat, dsize: nat, asText: bool, nohdr: bool)
    requires ksize >= 2 && dsize >= 2
    ensures var all := ReadAll([], ksize, dsize, asText, nohdr); all.records == [] && all.ending == AtInputEnd
  {
    if nohdr { NoWholeLine([], ksize); }
  }

  lemma RecordsOfSection(opts: Options, g: Globals, log: seq<Event>, rs: seq<Dump.Record>)
    ensures RecordsIn(log + SectionEvents(opts, g, rs)) == RecordsIn(log) + rs
    ensures log + [Open(g.subname, g.flags)] <= log + SectionEvents(opts, g, rs)
  {
    var puts, open := PutsOf(opts, g.flags, rs), [Open(g.subname, g.flags)];
    assert log + SectionEvents(opts, g, rs) == log + open + puts;
    RecordsInAppend(log + open, puts);
    RecordsOfOpening(log, g);
    RecordsOfAllPuts(opts, g.flags, rs, |rs|);
    assert puts[..|rs|] == puts && rs[..|rs|] == rs;
  }

  lemma RecordsOfOpening(log: seq<Event>, g: Globals)
    ensures RecordsIn(log + [Open(g.subname, g.flags)]) == RecordsIn(log)
  {
    var open := [Open(g.subname, g.flags)];
    RecordsInAppend(log, open);
    assert open[..0] == [] && RecordsIn(open) == [];
    assert RecordsIn(log) + [] == RecordsIn(log);
  }

  // ---------------------------------------------------------------- a key without data

  /** Records followed by a key line and then the end of the section or of the input: whatever the engine
      answers, the section fails. */
  lemma KeyWithoutDataFails(e: Engine, opts: Options, g: Globals, log: seq<Event>,
                            lines: seq<Bytes>, rs: seq<Dump.Record>,
                            code: Bytes, key: Bytes, end: Bytes, ksize: nat, dsize: nat)
    requires ksize >= 10 && dsize >= 10 && LinesOf(g.asText, lines, rs) && StandsFor(g.asText, code, key)
    requires end == [] || (!opts.nohdr && end == "DATA=END" + [NEWLINE])
    ensures var rest := InputOf(opts.nohdr, lines) + (Lead(opts.nohdr) + (code + [NEWLINE] + end));
      Section(e, opts, g, log, rest, ksize, dsize).SectionFailed?
  {
    var last := Lead(opts.nohdr) + (code + [NEWLINE] + end);
    var rest := InputOf(opts.nohdr, lines) + last;
    var ksize', dsize' := ReadAllOfLines(g.asText, opts.nohdr, lines, rs, last, ksize, dsize);
    GoodLine(code, key, end, ksize', g.asText, opts.nohdr);
    NoDataAtEnd(end, dsize', g.asText, opts.nohdr);
    assert ReadAll(last, ksize', dsize', g.asText, opts.nohdr).ending == DataMissing;
    SectionReadsThenPuts(e, opts, g, Batch(log, [Open(g.subname, g.flags)], [], 0), rest, ksize, dsize);
  }

  lemma NoDataAtEnd(end: Bytes, dsize: nat, asText: bool, nohdr: bool)
    requires dsize >= 10 && (end == [] || (!nohdr && end == "DATA=END" + [NEWLINE]))
    ensures !ReadRecord(end, dsize, asText, nohdr).Item?
  {
    if end == [] {
      NoWholeLine([], dsize);
    } else {
      ReadDataEnd([], dsize, asText);
      assert end + [] == end;
    }
  }
}
