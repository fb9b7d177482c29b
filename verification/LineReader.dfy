/** Reading one record line of a dump: `fgets`, the doubling line buffer and `readline` (mdb_load.c). */
module LineReader {
  import opened CTypes
  import opened Encoding

  // ---------------------------------------------------------------- C strings and streams

  /** The bytes in front of the first NUL. */
  function CString(s: Bytes): (r: Bytes)
    ensures |r| <= |s| && forall k :: 0 <= k < |r| ==> r[k] != NUL
    ensures r == s[..|r|]
    ensures |r| < |s| ==> s[|r|] == NUL
  {
    if s == [] || s[0] == NUL then [] else [s[0]] + CString(s[1..])
  }

  lemma {:induction false} CStringOfNulFree(s: Bytes)
    requires forall k :: 0 <= k < |s| ==> s[k] != NUL
    ensures CString(s) == s
  {
    if s != [] { CStringOfNulFree(s[1..]); }
  }

  /** What one `fgets` takes from the stream: up to and including a newline, at most `max` bytes. */
  function Chunk(rest: Bytes, max: nat): (r: Bytes)
    ensures |r| <= max && |r| <= |rest| && r == rest[..|r|]
    ensures rest != [] && max > 0 ==> r != []
  {
    if rest == [] || max == 0 then []
    else if rest[0] == NEWLINE then [NEWLINE]
    else [rest[0]] + Chunk(rest[1..], max - 1)
  }

  /** Of a line that fits, `fgets` takes exactly the line. */
  lemma {:induction false} ChunkOfShortLine(text: Bytes, tail: Bytes, max: nat)
    requires OneLine(text) && |text| < max
    ensures Chunk(text + [NEWLINE] + tail, max) == text + [NEWLINE]
  {
    var rest := text + [NEWLINE] + tail;
    if text != [] {
      assert rest[1..] == text[1..] + [NEWLINE] + tail;
      ChunkOfShortLine(text[1..], tail, max - 1);
    }
  }

  /** Of a longer line it takes as much as there is room for. */
  lemma {:induction false} ChunkOfLongLine(text: Bytes, tail: Bytes, max: nat)
    requires OneLine(text) && max <= |text|
    ensures Chunk(text + [NEWLINE] + tail, max) == text[..max]
  {
    var rest := text + [NEWLINE] + tail;
    if max > 0 {
      assert rest[1..] == text[1..] + [NEWLINE] + tail;
      ChunkOfLongLine(text[1..], tail, max - 1);
      assert text[..max] == [text[0]] + text[1..][..max - 1];
    }
  }

  // ---------------------------------------------------------------- the doubling buffer

  /** The result of assembling a line: the text without its newline, the rest of the stream and the
      size the buffer has grown to; or the stream ended first. */
  datatype Assembled = Line(text: Bytes, rest: Bytes, size: nat) | Cut

  /** The line-growing loop: `acc` has been read, the buffer has `size` bytes. Each further `fgets`
      is given `size + 1` bytes at offset `|acc|` of a buffer of `2 * size`. */
  ghost function Assemble(acc: Bytes, rest: Bytes, size: nat): Assembled
    requires acc != [] && size > 0
    decreases |rest|
  {
    if acc[|acc| - 1] == NEWLINE then Line(acc[..|acc| - 1], rest, size)
    else if rest == [] then Cut
    else
      var chunk := Chunk(rest, size);
      Assemble(acc + CString(chunk), rest[|chunk|..], 2 * size)
  }

  /** The last piece of a line, with its newline, fits the room that is left. */
  lemma AssembleLastPiece(acc: Bytes, text: Bytes, tail: Bytes, size: nat)
    requires acc != [] && acc[|acc| - 1] != NEWLINE && OneLine(text) && |text| < size
    ensures Assemble(acc, text + [NEWLINE] + tail, size) == Line(acc + text, tail, 2 * size)
  {
    var rest, piece := text + [NEWLINE] + tail, text + [NEWLINE];
    ChunkOfShortLine(text, tail, size);
    CStringOfNulFree(piece);
    assert rest[|piece|..] == tail;
    assert (acc + piece)[..|acc + piece| - 1] == acc + text;
  }

  lemma AssemblePiece(acc: Bytes, text: Bytes, tail: Bytes, size: nat)
    requires acc != [] && acc[|acc| - 1] != NEWLINE && OneLine(text) && 0 < size <= |text|
    ensures Assemble(acc, text + [NEWLINE] + tail, size)
         == Assemble(acc + text[..size], text[size..] + [NEWLINE] + tail, 2 * size)
  {
    var rest := text + [NEWLINE] + tail;
    ChunkOfLongLine(text, tail, size);
    CStringOfNulFree(text[..size]);
    assert rest[size..] == text[size..] + [NEWLINE] + tail;
  }

  lemma PieceOfLine(acc: Bytes, text: Bytes, size: nat)
    requires OneLine(text) && 0 < size <= |text|
    ensures var acc' := acc + text[..size];
      acc' != [] && acc'[|acc'| - 1] != NEWLINE && acc' + text[size..] == acc + text
    ensures OneLine(text[size..])
  {
    assert (acc + text[..size])[|acc| + size - 1] == text[..size][size - 1];
  }

  /** A line without NULs is assembled whole, however long it is and however small the buffer. */
  lemma {:induction false} AssembleWholeLine(acc: Bytes, text: Bytes, tail: Bytes, size: nat)
    requires acc != [] && acc[|acc| - 1] != NEWLINE && OneLine(text) && size > 0
    ensures var r := Assemble(acc, text + [NEWLINE] + tail, size);
      r.Line? && r.text == acc + text && r.rest == tail && r.size >= size
    decreases |text|
  {
    if |text| < size {
      AssembleLastPiece(acc, text, tail, size);
    } else {
      AssemblePiece(acc, text, tail, size);
      PieceOfLine(acc, text, size);
      AssembleWholeLine(acc + text[..size], text[size..], tail, 2 * size);
    }
  }

  // ---------------------------------------------------------------- readline, as a function

  /** What `readline` reports: a value (return 0), the `DATA=END` line (EOF, input goes on), or EOF
      with the `Eof` flag raised, for clean and malformed ends alike. */
  datatype Reading = Item(value: Bytes, rest: Bytes, size: nat) | EndOfData(rest: Bytes) | EndOfInput

  const ATA_END: Bytes := "ATA=END"

  ghost function Decode(asText: bool, s: Bytes): Option<Bytes> {
    if asText then DecodeText(s) else DecodeHex(s)
  }

  /** A line as `readline` assembles it, without its newline; `Cut` at the end of the input and when
      the line starts with NUL. */
  ghost function WholeLine(rest: Bytes, size: nat): Assembled
    requires size >= 2
  {
    var chunk := Chunk(rest, size - 1);
    var first := CString(chunk);
    if first == [] then Cut else Assemble(first, rest[|chunk|..], size)
  }

  lemma LineStarts(rest: Bytes, size: nat, chunk: Bytes, first: Bytes, rest': Bytes)
    requires size >= 2 && chunk == Chunk(rest, size - 1)
    requires first == CString(chunk) && rest' == rest[|chunk|..]
    ensures WholeLine(rest, size) == if |first| == 0 then Cut else Assemble(first, rest', size)
  {
  }

  lemma NoLineStarts(size: nat)
    requires size >= 2
    ensures WholeLine([], size) == Cut
  {
  }

  ghost function DecodedLine(line: Assembled, asText: bool): Reading {
    match line
    case Cut => EndOfInput
    case Line(text, rest, size) =>
      match Decode(asText, text)
      case None => EndOfInput
      case Some(v) => Item(v, rest, size)
  }

  /** The record lines themselves, after the leading space. */
  ghost function ReadBody(rest: Bytes, size: nat, asText: bool): Reading
    requires size >= 2
  {
    DecodedLine(WholeLine(rest, size), asText)
  }

  /** A line that starts with something else: only `DATA=END` is expected. */
  ghost function ReadEnd(c: Byte, rest: Bytes, size: nat): Reading
    requires size >= 2
  {
    var chunk := Chunk(rest, size - 1);
    if c == 'D' && ATA_END <= CString(chunk) then EndOfData(rest[|chunk|..]) else EndOfInput
  }

  ghost function ReadRecord(rest: Bytes, size: nat, asText: bool, nohdr: bool): Reading
    requires size >= 2
  {
    if nohdr then ReadBody(rest, size, asText)
    else if rest == [] then EndOfInput
    else if rest[0] != ' ' then ReadEnd(rest[0], rest[1..], size)
    else ReadBody(rest[1..], size, asText)
  }

  lemma AssembleCompleteLine(text: Bytes, tail: Bytes, size: nat)
    requires size > 0
    ensures Assemble(text + [NEWLINE], tail, size) == Line(text, tail, size)
  {
    assert (text + [NEWLINE])[..|text|] == text;
  }

  lemma WholeShortLine(code: Bytes, tail: Bytes, size: nat)
    requires OneLine(code) && |code| < size - 1
    ensures WholeLine(code + [NEWLINE] + tail, size) == Line(code, tail, size)
  {
    var rest, first := code + [NEWLINE] + tail, code + [NEWLINE];
    ChunkOfShortLine(code, tail, size - 1);
    CStringOfNulFree(first);
    assert rest[|first|..] == tail;
    AssembleCompleteLine(code, tail, size);
  }

  lemma ReadShortBody(code: Bytes, v: Bytes, tail: Bytes, size: nat, asText: bool)
    requires OneLine(code) && Decode(asText, code) == Some(v) && |code| < size - 1
    ensures ReadBody(code + [NEWLINE] + tail, size, asText) == Item(v, tail, size)
  {
    WholeShortLine(code, tail, size);
  }

  lemma FirstPieceOfLine(code: Bytes, tail: Bytes, size: nat)
    requires OneLine(code) && 1 <= size - 1 <= |code|
    ensures WholeLine(code + [NEWLINE] + tail, size)
         == Assemble(code[..size - 1], code[size - 1..] + [NEWLINE] + tail, size)
  {
    var rest, first := code + [NEWLINE] + tail, code[..size - 1];
    ChunkOfLongLine(code, tail, size - 1);
    CStringOfNulFree(first);
    assert rest[size - 1..] == code[size - 1..] + [NEWLINE] + tail;
    LineStarts(rest, size, first, first, rest[size - 1..]);
  }

  /** The line `text` with `rest` left, in a buffer of `size` bytes or more. */
  ghost predicate IsLine(line: Assembled, text: Bytes, rest: Bytes, size: nat) {
    line.Line? && line.text == text && line.rest == rest && line.size >= size
  }

  lemma WholeLongLine(code: Bytes, tail: Bytes, size: nat)
    requires OneLine(code) && 1 <= size - 1 <= |code|
    ensures IsLine(WholeLine(code + [NEWLINE] + tail, size), code, tail, size)
  {
    var first, more := code[..size - 1], code[size - 1..];
    AssemblePieces(code, first, more, tail, size);
    FirstPieceOfLine(code, tail, size);
  }

  lemma AssemblePieces(code: Bytes, first: Bytes, more: Bytes, tail: Bytes, size: nat)
    requires OneLine(code) && first != [] && code == first + more && size > 0
    ensures IsLine(Assemble(first, more + [NEWLINE] + tail, size), code, tail, size)
  {
    PiecesOfLine(code, first, more);
    AssembleWholeLine(first, more, tail, size);
  }

  lemma PiecesOfLine(code: Bytes, first: Bytes, more: Bytes)
    requires OneLine(code) && first != [] && code == first + more
    ensures first[|first| - 1] != NEWLINE && OneLine(more)
  {
    assert first[|first| - 1] == code[|first| - 1];
    assert forall k :: 0 <= k < |more| ==> more[k] == code[|first| + k];
  }

  lemma ReadLongBody(code: Bytes, v: Bytes, tail: Bytes, size: nat, asText: bool)
    requires OneLine(code) && Decode(asText, code) == Some(v) && 1 <= size - 1 <= |code|
    ensures var r := ReadBody(code + [NEWLINE] + tail, size, asText);
      r.Item? && r.value == v && r.rest == tail && r.size >= size
  {
    WholeLongLine(code, tail, size);
  }

  /** Reading back a record line of any length, whatever the size of the line buffer. */
  lemma ReadRecordLine(code: Bytes, v: Bytes, tail: Bytes, size: nat, asText: bool)
    requires size >= 2 && OneLine(code) && Decode(asText, code) == Some(v)
    ensures var r := ReadRecord([' '] + code + [NEWLINE] + tail, size, asText, false);
      r.Item? && r.value == v && r.rest == tail && r.size >= size
  {
    assert ([' '] + code + [NEWLINE] + tail)[1..] == code + [NEWLINE] + tail;
    if |code| < size - 1 {
      ReadShortBody(code, v, tail, size, asText);
    } else {
      ReadLongBody(code, v, tail, size, asText);
    }
  }

  /** The closing line of a section. No record line can be taken for it: record lines start with a
      space. */
  lemma ReadDataEnd(tail: Bytes, size: nat, asText: bool)
    requires size >= 10
    ensures ReadRecord("DATA=END" + [NEWLINE] + tail, size, asText, false) == EndOfData(tail)
  {
    var all: Bytes := "DATA=END" + [NEWLINE] + tail;
    assert all[1..] == ATA_END + [NEWLINE] + tail;
    assert OneLine(ATA_END);
    ChunkOfShortLine(ATA_END, tail, size - 1);
    CStringOfNulFree(ATA_END + [NEWLINE]);
    assert (ATA_END + [NEWLINE] + tail)[|ATA_END + [NEWLINE]|..] == tail;
  }

  // ---------------------------------------------------------------- the stream and the buffer

  class Stream {
    const input: Bytes
    var pos: nat

    constructor (bytes: Bytes)
      ensures pos == 0 && input == bytes && Rest() == bytes
    {
      input := bytes;
      pos := 0;
    }

    ghost predicate Valid()
      reads this
    {
      pos <= |input|
    }

    ghost function Rest(): Bytes
      requires pos <= |input|
      reads this
    {
      input[pos..]
    }

    /** How much of the input is left. */
    function Left(): (n: nat)
      requires Valid()
      reads this
      ensures n == |Rest()|
    {
      |input| - pos
    }

    method Fgetc() returns (c: Option<Byte>)
      requires Valid()
      modifies this
      ensures Valid()
      ensures old(Rest()) == [] ==> c == None && Rest() == []
      ensures old(Rest()) != [] ==> c == Some(old(Rest())[0]) && Rest() == old(Rest())[1..]
    {
      if pos == |input| { return None; }
      pos := pos + 1;
      return Some(input[pos - 1]);
    }

    /** Reads a line of at most `n - 1` bytes to offset `off`, with a NUL behind it; false at the end of
        the input. */
    method Fgets(buf: array<Byte>, off: nat, n: nat) returns (ok: bool)
      requires Valid() && n >= 2 && off + n <= buf.Length
      modifies this, buf
      ensures Valid()
      ensures ok <==> old(Rest()) != []
      ensures var chunk := Chunk(old(Rest()), n - 1);
        && Rest() == old(Rest())[|chunk|..]
        && (ok ==> Holds(buf, off, chunk) && buf[off + |chunk|] == NUL)
      ensures !ok ==> buf[..] == old(buf[..])
      ensures forall k {:trigger buf[k]} :: 0 <= k < off ==> buf[k] == old(buf[k])
    {
      ghost var p := pos;
      TakenFromIsChunk(input, p, n - 1);
      if pos == |input| { return false; }
      var taken := CopyLine(input, pos, buf, off, n);
      pos := pos + taken;
      assert Chunk(input[p..], n - 1) == input[p..pos] && input[p..][taken..] == Rest();
      return true;
    }
  }

  /** How many bytes `fgets` takes from position `p` on. */
  ghost function TakenFrom(input: Bytes, p: nat, max: nat): (i: nat)
    ensures i <= max
    decreases max
  {
    if max == 0 || p >= |input| then 0
    else if input[p] == NEWLINE then 1
    else 1 + TakenFrom(input, p + 1, max - 1)
  }

  lemma {:induction false} TakenFromIsChunk(input: Bytes, p: nat, max: nat)
    requires p <= |input|
    ensures p + TakenFrom(input, p, max) <= |input|
    ensures Chunk(input[p..], max) == input[p..p + TakenFrom(input, p, max)]
    ensures input[p..][TakenFrom(input, p, max)..] == input[p + TakenFrom(input, p, max)..]
    decreases max
  {
    if max > 0 && p < |input| && input[p] != NEWLINE {
      TakenFromIsChunk(input, p + 1, max - 1);
      OneMoreTaken(input, p, TakenFrom(input, p + 1, max - 1));
    }
  }

  lemma OneMoreTaken(input: Bytes, p: nat, n: nat)
    requires p + 1 + n <= |input|
    ensures input[p..][1..] == input[p + 1..]
    ensures input[p..p + 1 + n] == [input[p]] + input[p + 1..p + 1 + n]
    ensures input[p..][1 + n..] == input[p + 1 + n..]
  {
  }

  ghost predicate Holds(buf: array<Byte>, off: nat, s: Bytes)
    reads buf
  {
    off + |s| <= buf.Length && forall k {:trigger buf[k]} :: off <= k < off + |s| ==> buf[k] == s[k - off]
  }

  /** The copying loop of `fgets`. */
  method CopyLine(input: Bytes, p: nat, buf: array<Byte>, off: nat, n: nat) returns (i: nat)
    requires p < |input| && n >= 2 && off + n <= buf.Length
    modifies buf
    ensures i == TakenFrom(input, p, n - 1) && p + i <= |input|
    ensures Holds(buf, off, input[p..p + i]) && buf[off + i] == NUL
    ensures forall k {:trigger buf[k]} :: 0 <= k < off ==> buf[k] == old(buf[k])
  {
    i := 0;
    var eol := false;
    while i < n - 1 && p + i < |input| && !eol
      invariant 0 <= i <= n - 1 && p + i <= |input|
      invariant TakenFrom(input, p, n - 1) == if eol then i else i + TakenFrom(input, p + i, n - 1 - i)
      invariant forall k {:trigger buf[k]} :: off <= k < off + i ==> buf[k] == input[p + (k - off)]
      invariant forall k {:trigger buf[k]} :: 0 <= k < off ==> buf[k] == old(buf[k])
    {
      buf[off + i] := input[p + i];
      eol := input[p + i] == NEWLINE;
      i := i + 1;
    }
    buf[off + i] := NUL;
    SliceIsHeld(buf, off, input, p, i);
  }

  lemma SliceIsHeld(buf: array<Byte>, off: nat, input: Bytes, p: nat, i: nat)
    requires off + i <= buf.Length && p + i <= |input|
    requires forall k {:trigger buf[k]} :: off <= k < off + i ==> buf[k] == input[p + (k - off)]
    ensures Holds(buf, off, input[p..p + i])
  {
    forall k | off <= k < off + i ensures buf[k] == input[p..p + i][k - off] {}
  }

  lemma CStringEndsAt(s: Bytes, len: nat)
    requires len <= |CString(s)| && (len < |s| ==> s[len] == NUL)
    ensures len == |CString(s)|
  {
  }

  /** `strlen` of the string at offset `off`: the buffer holds `s` there, followed by NUL. */
  method Strlen(buf: array<Byte>, off: nat, ghost s: Bytes) returns (len: nat)
    requires off + |s| < buf.Length && Holds(buf, off, s) && buf[off + |s|] == NUL
    ensures len == |CString(s)| && buf[off + len] == NUL
  {
    len := 0;
    ghost var str := CString(s);
    while buf[off + len] != NUL
      invariant len <= |str|
      decreases |s| - len
    {
      assert len < |s| ==> buf[off + len] == s[len];
      len := len + 1;
    }
    assert len < |s| ==> buf[off + len] == s[len];
    CStringEndsAt(s, len);
  }

  lemma HoldsMore(buf: array<Byte>, acc: Bytes, chunk: Bytes)
    requires Holds(buf, 0, acc) && Holds(buf, |acc|, chunk)
    ensures Holds(buf, 0, acc + CString(chunk))
  {
    var str := CString(chunk);
    forall k {:trigger buf[k]} | 0 <= k < |acc| + |str| ensures buf[k] == (acc + str)[k] {
      if k >= |acc| { assert buf[k] == chunk[k - |acc|]; }
    }
  }

  // ---------------------------------------------------------------- readline

  /** An `MDB_val` used as a line buffer: `mv_data` and `mv_size`. */
  class LineBuffer {
    var data: array<Byte>
    var size: nat

    ghost predicate Valid()
      reads this
    {
      size >= 2 && data.Length == size
    }

    constructor (bytes: nat)
      requires bytes >= 2
      ensures Valid() && fresh(data) && size == bytes
    {
      data := new Byte[bytes];
      size := bytes;
    }

    /** Reallocates the buffer to twice its size. */
    method Double()
      requires Valid()
      modifies this
      ensures Valid() && fresh(data) && size == 2 * old(size)
      ensures forall k {:trigger data[k]} :: 0 <= k < old(size) ==> data[k] == old(data[k])
    {
      var newbuf := new Byte[2 * size];
      forall k | 0 <= k < size { newbuf[k] := data[k]; }
      data := newbuf;
      size := 2 * size;
    }
  }

  /** One round of the growing loop. The offset `l2` is below the old size, so `size + 1` bytes at
      that offset end inside the doubled buffer. */
  method GrowAndRead(stream: Stream, buf: LineBuffer, l2: nat, ghost acc: Bytes) returns (ok: bool, len: nat)
    requires stream.Valid() && buf.Valid() && l2 == |acc| < buf.size && Holds(buf.data, 0, acc)
    modifies stream, buf
    ensures stream.Valid() && buf.Valid() && fresh(buf.data) && buf.size == 2 * old(buf.size)
    ensures ok <==> old(stream.Rest()) != []
    ensures ok ==> stream.Rest() == old(stream.Rest())[|Chunk(old(stream.Rest()), old(buf.size))|..]
    ensures ok ==> len == |CString(Chunk(old(stream.Rest()), old(buf.size)))|
    ensures ok ==> l2 + len < buf.size && buf.data[l2 + len] == NUL
    ensures ok ==> Holds(buf.data, 0, acc + CString(Chunk(old(stream.Rest()), old(buf.size))))
  {
    var size := buf.size;
    buf.Double();
    ghost var chunk := Chunk(stream.Rest(), size);
    ok := stream.Fgets(buf.data, l2, size + 1);
    len := 0;
    if ok {
      len := Strlen(buf.data, l2, chunk);
      HoldsMore(buf.data, acc, chunk);
    }
  }

  lemma AssembleGoesOn(acc: Bytes, rest: Bytes, size: nat)
    requires acc != [] && size > 0 && acc[|acc| - 1] != NEWLINE
    ensures rest == [] ==> Assemble(acc, rest, size) == Cut
    ensures rest != [] ==>
      Assemble(acc, rest, size) == Assemble(acc + CString(Chunk(rest, size)), rest[|Chunk(rest, size)|..], 2 * size)
  {
    AssembleUnfolds(acc, rest, size);
  }

  lemma AssembleUnfolds(acc: Bytes, rest: Bytes, size: nat)
    requires acc != [] && size > 0
    ensures acc[|acc| - 1] == NEWLINE ==> Assemble(acc, rest, size) == Line(acc[..|acc| - 1], rest, size)
    ensures acc[|acc| - 1] != NEWLINE && rest == [] ==> Assemble(acc, rest, size) == Cut
    ensures var chunk := Chunk(rest, size);
      acc[|acc| - 1] != NEWLINE && rest != [] ==>
        Assemble(acc, rest, size) == Assemble(acc + CString(chunk), rest[|chunk|..], 2 * size)
  {
  }

  /** The assembled line, newline included, occupies `[0, l2)` of the buffer; or there is none. */
  ghost predicate LineIn(line: Assembled, ok: bool, l2: nat, stream: Stream, buf: LineBuffer)
    requires stream.Valid()
    reads stream, buf, buf.data
  {
    match line
    case Cut => !ok
    case Line(text, rest, size) =>
      && ok && l2 == |text| + 1 <= buf.size && Holds(buf.data, 0, text)
      && stream.Rest() == rest && buf.size == size
  }

  /** Grows the buffer and reads on until the newline is there: on return the line, newline included,
      is `[0, l2)`. */
  method AssembleLine(stream: Stream, buf: LineBuffer, len: nat, ghost first: Bytes)
    returns (ok: bool, l2: nat)
    requires stream.Valid() && buf.Valid() && 0 < len == |first| < buf.size
    requires Holds(buf.data, 0, first)
    modifies stream, buf
    ensures stream.Valid() && buf.Valid() && (buf.data == old(buf.data) || fresh(buf.data))
    ensures LineIn(Assemble(first, old(stream.Rest()), old(buf.size)), ok, l2, stream, buf)
  {
    l2 := len;
    ghost var acc := first;
    ghost var whole := Assemble(first, stream.Rest(), buf.size);
    while buf.data[l2 - 1] != NEWLINE
      invariant stream.Valid() && buf.Valid() && (buf.data == old(buf.data) || fresh(buf.data))
      invariant 0 < l2 == |acc| < buf.size && Holds(buf.data, 0, acc)
      invariant Assemble(acc, stream.Rest(), buf.size) == whole
      decreases |stream.Rest()|
    {
      ghost var rest, size := stream.Rest(), buf.size;
      assert acc[l2 - 1] == buf.data[l2 - 1];
      AssembleGoesOn(acc, rest, size);
      var more, taken := GrowAndRead(stream, buf, l2, acc);
      if !more { return false, 0; }
      acc := acc + CString(Chunk(rest, size));
      l2 := l2 + taken;
    }
    ok := true;
    LineComplete(stream, buf, acc);
  }

  /** Once the newline is there, the line is what has been read. */
  lemma LineComplete(stream: Stream, buf: LineBuffer, acc: Bytes)
    requires stream.Valid() && buf.Valid() && 0 < |acc| < buf.size && Holds(buf.data, 0, acc)
    requires buf.data[|acc| - 1] == NEWLINE
    ensures LineIn(Assemble(acc, stream.Rest(), buf.size), true, |acc|, stream, buf)
  {
    assert acc[|acc| - 1] == buf.data[|acc| - 1];
    AssembleUnfolds(acc, stream.Rest(), buf.size);
  }

  datatype Status = Got(value: Bytes) | DataEnd | InputEnd

  /** The first `fgets` and the length of what it read. */
  method ReadFirst(stream: Stream, buf: LineBuffer) returns (ok: bool, len: nat)
    requires stream.Valid() && buf.Valid()
    modifies stream, buf.data
    ensures stream.Valid()
    ensures ok <==> old(stream.Rest()) != []
    ensures !ok ==> stream.Rest() == []
    ensures ok ==> stream.Rest() == old(stream.Rest())[|Chunk(old(stream.Rest()), buf.size - 1)|..]
    ensures ok ==> len == |CString(Chunk(old(stream.Rest()), buf.size - 1))| < buf.size
    ensures ok ==> Holds(buf.data, 0, CString(Chunk(old(stream.Rest()), buf.size - 1)))
  {
    ghost var chunk := Chunk(stream.Rest(), buf.size - 1);
    ok := stream.Fgets(buf.data, 0, buf.size);
    len := 0;
    if ok {
      len := Strlen(buf.data, 0, chunk);
      HoldsMore(buf.data, [], chunk);
      assert [] + CString(chunk) == CString(chunk);
    }
  }

  /** The same, with the string as a value. */
  method ReadString(stream: Stream, buf: LineBuffer) returns (ok: bool, line: Bytes)
    requires stream.Valid() && buf.Valid()
    modifies stream, buf.data
    ensures stream.Valid()
    ensures ok <==> old(stream.Rest()) != []
    ensures !ok ==> stream.Rest() == []
    ensures ok ==> stream.Rest() == old(stream.Rest())[|Chunk(old(stream.Rest()), buf.size - 1)|..]
    ensures ok ==> line == CString(Chunk(old(stream.Rest()), buf.size - 1)) && Holds(buf.data, 0, line)
  {
    var len;
    ok, len := ReadFirst(stream, buf);
    line := if ok then buf.data[..len] else [];
  }

  /** Strips the newline and decodes the line in place. */
  method DecodeLine(buf: array<Byte>, l2: nat, asText: bool, ghost text: Bytes) returns (r: Status)
    requires 0 < l2 == |text| + 1 <= buf.Length && Holds(buf, 0, text)
    modifies buf
    ensures r == if Decode(asText, text).Some? then Got(Decode(asText, text).value) else InputEnd
  {
    buf[l2 - 1] := NUL;
    assert buf[..l2 - 1] == text;
    var ok, size;
    if asText {
      ok, size := DecodeTextInPlace(buf, l2 - 1);
    } else {
      ok, size := DecodeHexInPlace(buf, l2 - 1);
    }
    if !ok { return InputEnd; }
    return Got(buf[..size]);
  }

  /** The start of a line: nothing to read or a NUL in front, or a first part to go on from. */
  method StartLine(stream: Stream, buf: LineBuffer, ghost line: Assembled) returns (len: nat, ghost first: Bytes)
    requires stream.Valid() && buf.Valid() && line == WholeLine(stream.Rest(), buf.size)
    modifies stream, buf.data
    ensures stream.Valid() && len == |first| < buf.size
    ensures if len == 0 then line == Cut else line == Assemble(first, stream.Rest(), buf.size)
    ensures Holds(buf.data, 0, first)
  {
    ghost var rest, chunk := stream.Rest(), Chunk(stream.Rest(), buf.size - 1);
    first := CString(chunk);
    var ok;
    ok, len := ReadFirst(stream, buf);
    if ok {
      LineStarts(rest, buf.size, chunk, first, stream.Rest());
    } else {
      len, first := 0, [];
      NoLineStarts(buf.size);
    }
  }

  /** Reads a line up to its newline, growing the buffer as needed. */
  method ReadWholeLine(stream: Stream, buf: LineBuffer) returns (ok: bool, l2: nat)
    requires stream.Valid() && buf.Valid()
    modifies stream, buf, buf.data
    ensures stream.Valid() && buf.Valid() && (buf.data == old(buf.data) || fresh(buf.data))
    ensures LineIn(WholeLine(old(stream.Rest()), old(buf.size)), ok, l2, stream, buf)
  {
    ghost var line, first := WholeLine(stream.Rest(), buf.size), [];
    l2, first := StartLine(stream, buf, line);
    if l2 == 0 { return false, 0; }
    ok, l2 := AssembleLine(stream, buf, l2, first);
  }

  /** What `readline` reports for a record of the input. */
  ghost predicate Answers(record: Reading, r: Status, stream: Stream, buf: LineBuffer, size0: nat)
    requires stream.Valid()
    reads stream, buf
  {
    match record
    case Item(v, rest, size) => r == Got(v) && stream.Rest() == rest && buf.size == size
    case EndOfData(rest) => r == DataEnd && stream.Rest() == rest && buf.size == size0
    case EndOfInput => r == InputEnd
  }

  /** The part of `readline` after the leading space. */
  method ReadLineBody(stream: Stream, buf: LineBuffer, asText: bool) returns (r: Status)
    requires stream.Valid() && buf.Valid()
    modifies stream, buf, buf.data
    ensures stream.Valid() && buf.Valid() && (buf.data == old(buf.data) || fresh(buf.data))
    ensures Answers(ReadBody(old(stream.Rest()), old(buf.size), asText), r, stream, buf, old(buf.size))
  {
    ghost var line := WholeLine(stream.Rest(), buf.size);
    var ok, l2 := ReadWholeLine(stream, buf);
    if !ok { return InputEnd; }
    r := DecodeLine(buf.data, l2, asText, line.text);
  }

  /** A line that does not start with a space. */
  method ReadEndLine(stream: Stream, buf: LineBuffer, c: Byte) returns (r: Status)
    requires stream.Valid() && buf.Valid()
    modifies stream, buf.data
    ensures stream.Valid()
    ensures Answers(ReadEnd(c, old(stream.Rest()), buf.size), r, stream, buf, buf.size)
  {
    var ok, line := ReadString(stream, buf);
    if ok && c == 'D' && ATA_END <= line { return DataEnd; }
    return InputEnd;
  }

  /** `readline`; the caller's `Eof` flag goes up exactly on `InputEnd`. */
  method ReadLine(stream: Stream, buf: LineBuffer, asText: bool, nohdr: bool) returns (r: Status)
    requires stream.Valid() && buf.Valid()
    modifies stream, buf, buf.data
    ensures stream.Valid() && buf.Valid() && (buf.data == old(buf.data) || fresh(buf.data))
    ensures Answers(ReadRecord(old(stream.Rest()), old(buf.size), asText, nohdr), r, stream, buf, old(buf.size))
  {
    if !nohdr {
      var c := stream.Fgetc();
      if c == None { return InputEnd; }
      if c != Some(' ') {
        r := ReadEndLine(stream, buf, c.value);
        return;
      }
    }
    r := ReadLineBody(stream, buf, asText);
  }
}
