/** The two record encodings of the dump format and their decoders: `hex`, `text` and `byte`
    (mdb_dump.c), `unhex` and the in-place decoding of `readline` (mdb_load.c). */
module Encoding {
  import opened CTypes

  type Byte = c: char | c as int < 256
  type Bytes = seq<Byte>

  const NUL: Byte := '\0'
  const NEWLINE: Byte := '\n'
  const BACKSLASH: Byte := '\\'

  /** The printable bytes of the locale. */
  type Locale = Byte -> bool

  /** All that is asked of a locale: newline and NUL are not printable. */
  ghost predicate Sane(isprint: Locale) {
    !isprint(NEWLINE) && !isprint(NUL)
  }

  // ---------------------------------------------------------------- printing

  function HexDigit(n: int): Byte
    requires 0 <= n < 16
  {
    "0123456789abcdef"[n]
  }

  function Hex(c: Byte): Bytes {
    [HexDigit(c as int / 16), HexDigit(c as int % 16)]
  }

  /** One byte of a `text` record. */
  function TextByte(isprint: Locale, c: Byte): Bytes {
    if isprint(c) then if c == BACKSLASH then [BACKSLASH, c] else [c]
    else [BACKSLASH] + Hex(c)
  }

  ghost function TextOf(isprint: Locale, v: Bytes): Bytes {
    if v == [] then [] else TextByte(isprint, v[0]) + TextOf(isprint, v[1..])
  }

  ghost function HexOf(v: Bytes): Bytes {
    if v == [] then [] else Hex(v[0]) + HexOf(v[1..])
  }

  // ---------------------------------------------------------------- decoding

  predicate IsXDigit(c: Byte) {
    '0' <= c <= '9' || 'a' <= c <= 'f' || 'A' <= c <= 'F'
  }

  /** The value of a hex digit: its low four bits, and for a letter, which has bit 6 set, 9 more. */
  function UnhexDigit(c: Byte): int {
    var x := c as int / 64 % 2 * 64 + c as int % 16;
    if x >= 64 then x - 55 else x
  }

  lemma UnhexDigitRange(c: Byte)
    requires IsXDigit(c)
    ensures 0 <= UnhexDigit(c) < 16
  {
  }

  /** `unhex`; the low digit is or-ed into the empty low half. */
  function Unhex(hi: Byte, lo: Byte): Byte
    requires IsXDigit(hi) && IsXDigit(lo)
  {
    UnhexDigitRange(hi);
    UnhexDigitRange(lo);
    (UnhexDigit(hi) * 16 + UnhexDigit(lo)) as char
  }

  ghost function Prepend(s: Bytes, r: Option<Bytes>): Option<Bytes> {
    if r.Some? then Some(s + r.value) else None
  }

  /** What a line of a `format=print` dump stands for; `None` when an escape is malformed. */
  ghost function DecodeText(s: Bytes): Option<Bytes> {
    if s == [] then Some([])
    else if s[0] != BACKSLASH then Prepend([s[0]], DecodeText(s[1..]))
    else if |s| >= 2 && s[1] == BACKSLASH then Prepend([BACKSLASH], DecodeText(s[2..]))
    else if |s| < 3 || !IsXDigit(s[1]) || !IsXDigit(s[2]) then None
    else Prepend([Unhex(s[1], s[2])], DecodeText(s[3..]))
  }

  /** What a line of a `format=bytevalue` dump stands for. */
  ghost function DecodeHex(s: Bytes): Option<Bytes> {
    if s == [] then Some([])
    else if |s| < 2 || !IsXDigit(s[0]) || !IsXDigit(s[1]) then None
    else Prepend([Unhex(s[0], s[1])], DecodeHex(s[2..]))
  }

  // ---------------------------------------------------------------- well-formed lines

  /** One unit of a print line: a plain byte, a doubled backslash, or a backslash and two hex digits. */
  ghost predicate IsToken(t: Bytes) {
    || (|t| == 1 && t[0] != BACKSLASH)
    || t == [BACKSLASH, BACKSLASH]
    || (|t| == 3 && t[0] == BACKSLASH && IsXDigit(t[1]) && IsXDigit(t[2]))
  }

  ghost function TokenByte(t: Bytes): Byte
    requires IsToken(t)
  {
    if |t| == 3 then Unhex(t[1], t[2]) else t[0]
  }

  ghost predicate AllTokens(ts: seq<Bytes>) {
    forall k :: 0 <= k < |ts| ==> IsToken(ts[k])
  }

  ghost function Flatten(ts: seq<Bytes>): Bytes {
    if ts == [] then [] else ts[0] + Flatten(ts[1..])
  }

  ghost function TokenBytes(ts: seq<Bytes>): Bytes
    requires AllTokens(ts)
  {
    if ts == [] then [] else [TokenByte(ts[0])] + TokenBytes(ts[1..])
  }

  /** A line made of tokens decodes, token by token. */
  lemma {:induction false} TokensDecode(ts: seq<Bytes>)
    requires AllTokens(ts)
    ensures DecodeText(Flatten(ts)) == Some(TokenBytes(ts))
  {
    if ts != [] {
      var t, more := ts[0], Flatten(ts[1..]);
      TokensDecode(ts[1..]);
      assert (t + more)[|t|..] == more;
    }
  }

  /** Only lines made of tokens decode. */
  lemma {:induction false} DecodableIsTokens(s: Bytes) returns (ts: seq<Bytes>)
    requires DecodeText(s).Some?
    ensures AllTokens(ts) && Flatten(ts) == s
  {
    if s == [] {
      ts := [];
    } else {
      var n := if s[0] != BACKSLASH then 1 else if |s| >= 2 && s[1] == BACKSLASH then 2 else 3;
      var more := DecodableIsTokens(s[n..]);
      ts := [s[..n]] + more;
      assert ts[1..] == more;
      assert s == s[..n] + s[n..];
    }
  }

  /** Print lines decode exactly when they are well formed, and then to the bytes of their tokens. */
  lemma TextDecodesIffWellFormed(s: Bytes)
    ensures DecodeText(s).Some? <==> exists ts :: AllTokens(ts) && Flatten(ts) == s
    ensures forall ts :: AllTokens(ts) && Flatten(ts) == s ==> DecodeText(s) == Some(TokenBytes(ts))
  {
    if DecodeText(s).Some? { var ts := DecodableIsTokens(s); }
    forall ts | AllTokens(ts) && Flatten(ts) == s ensures DecodeText(s) == Some(TokenBytes(ts)) {
      TokensDecode(ts);
    }
  }

  // ---------------------------------------------------------------- the round trip

  lemma HexDigitsDecode(c: Byte)
    ensures forall n :: 0 <= n < 16 ==> IsXDigit(HexDigit(n)) && UnhexDigit(HexDigit(n)) == n
    ensures Unhex(Hex(c)[0], Hex(c)[1]) == c
  {
    forall n | 0 <= n < 16 ensures IsXDigit(HexDigit(n)) && UnhexDigit(HexDigit(n)) == n {
      HexDigitDecodes(n);
    }
  }

  lemma HexDigitDecodes(n: int)
    requires 0 <= n < 16
    ensures IsXDigit(HexDigit(n)) && UnhexDigit(HexDigit(n)) == n
  {
    var d := HexDigit(n);
    assert d == if n < 10 then (n + '0' as int) as char else (n - 10 + 'a' as int) as char;
  }

  /** Decoding undoes `text`, for every byte string and every locale. */
  lemma {:induction false} TextRoundTrip(isprint: Locale, v: Bytes)
    ensures DecodeText(TextOf(isprint, v)) == Some(v)
  {
    if v != [] {
      var c, head, tail := v[0], TextByte(isprint, v[0]), TextOf(isprint, v[1..]);
      var s := head + tail;
      HexDigitsDecode(c);
      TextRoundTrip(isprint, v[1..]);
      assert s[|head|..] == tail;
      assert [c] + v[1..] == v;
    }
  }

  /** Decoding undoes `byte`, for every byte string. */
  lemma {:induction false} HexRoundTrip(v: Bytes)
    ensures DecodeHex(HexOf(v)) == Some(v)
  {
    if v != [] {
      var s := Hex(v[0]) + HexOf(v[1..]);
      HexDigitsDecode(v[0]);
      HexRoundTrip(v[1..]);
      assert s[2..] == HexOf(v[1..]);
      assert [v[0]] + v[1..] == v;
    }
  }

  ghost predicate AllXDigits(s: Bytes) {
    forall k :: 0 <= k < |s| ==> IsXDigit(s[k])
  }

  lemma AllXDigitsSplit(s: Bytes)
    requires |s| >= 2
    ensures AllXDigits(s) <==> IsXDigit(s[0]) && IsXDigit(s[1]) && AllXDigits(s[2..])
  {
    if AllXDigits(s[2..]) && IsXDigit(s[0]) && IsXDigit(s[1]) {
      forall k | 0 <= k < |s| ensures IsXDigit(s[k]) {
        if k >= 2 { assert s[k] == s[2..][k - 2]; }
      }
    }
  }

  /** What a hex digit stands for, in either case. */
  ghost function DigitValue(c: Byte): int
    requires IsXDigit(c)
  {
    if c <= '9' then c as int - '0' as int
    else if c <= 'F' then c as int - 'A' as int + 10
    else c as int - 'a' as int + 10
  }

  /** The bytes that pairs of hex digits stand for. */
  ghost predicate PairsStandFor(s: Bytes, v: Bytes) {
    && |s| == 2 * |v| && AllXDigits(s)
    && forall k :: 0 <= k < |v| ==> v[k] as int == 16 * DigitValue(s[2 * k]) + DigitValue(s[2 * k + 1])
  }

  lemma UnhexIsDigits(hi: Byte, lo: Byte)
    requires IsXDigit(hi) && IsXDigit(lo)
    ensures Unhex(hi, lo) as int == 16 * DigitValue(hi) + DigitValue(lo)
  {
    UnhexDigitIsValue(hi);
    UnhexDigitIsValue(lo);
  }

  lemma UnhexDigitIsValue(c: Byte)
    requires IsXDigit(c)
    ensures UnhexDigit(c) == DigitValue(c)
  {
  }

  lemma PairsOneMore(s: Bytes, b: Byte, v: Bytes)
    requires |s| >= 2 && IsXDigit(s[0]) && IsXDigit(s[1]) && PairsStandFor(s[2..], v)
    requires b as int == 16 * DigitValue(s[0]) + DigitValue(s[1])
    ensures PairsStandFor(s, [b] + v)
  {
    AllXDigitsSplit(s);
    var w := [b] + v;
    forall k | 0 <= k < |w| ensures w[k] as int == 16 * DigitValue(s[2 * k]) + DigitValue(s[2 * k + 1]) {
      if k > 0 {
        assert s[2 * k] == s[2..][2 * (k - 1)] && s[2 * k + 1] == s[2..][2 * (k - 1) + 1];
        assert w[k] == v[k - 1];
      }
    }
  }

  /** Hex digits pair by pair. */
  ghost predicate IsPairs(s: Bytes) {
    s == [] || (|s| >= 2 && IsXDigit(s[0]) && IsXDigit(s[1]) && IsPairs(s[2..]))
  }

  lemma {:induction false} PairsAreDigits(s: Bytes)
    ensures IsPairs(s) <==> |s| % 2 == 0 && AllXDigits(s)
  {
    if |s| >= 2 {
      PairsAreDigits(s[2..]);
      AllXDigitsSplit(s);
    }
  }

  lemma {:induction false} PairsDecode(s: Bytes)
    ensures DecodeHex(s).Some? <==> IsPairs(s)
  {
    if |s| >= 2 { PairsDecode(s[2..]); }
  }

  lemma HexAccepts(s: Bytes)
    ensures DecodeHex(s).Some? <==> |s| % 2 == 0 && AllXDigits(s)
  {
    PairsDecode(s);
    PairsAreDigits(s);
  }

  lemma {:induction false} HexYields(s: Bytes)
    requires DecodeHex(s).Some?
    ensures PairsStandFor(s, DecodeHex(s).value)
  {
    if s != [] {
      HexYields(s[2..]);
      UnhexIsDigits(s[0], s[1]);
      PairsOneMore(s, Unhex(s[0], s[1]), DecodeHex(s[2..]).value);
    }
  }

  /** Hex decoding succeeds exactly on an even number of hex digits, and yields the bytes they stand
      for, the high digit first. */
  lemma HexDecodesIffWellFormed(s: Bytes)
    ensures DecodeHex(s).Some? <==> |s| % 2 == 0 && AllXDigits(s)
    ensures DecodeHex(s).Some? ==> PairsStandFor(s, DecodeHex(s).value)
  {
    HexAccepts(s);
    if DecodeHex(s).Some? { HexYields(s); }
  }

  // ---------------------------------------------------------------- the decoders in full

  /** `c` is the hex digit for `n`, in either case. */
  ghost predicate IsDigitFor(c: Byte, n: int) {
    0 <= n < 16 && (c == "0123456789abcdef"[n] || c == "0123456789ABCDEF"[n])
  }

  lemma DigitsInEitherCase(c: Byte, n: int)
    requires 0 <= n < 16
    ensures IsDigitFor(c, n) <==> IsXDigit(c) && DigitValue(c) == n
  {
    var lower, upper := "0123456789abcdef"[n], "0123456789ABCDEF"[n];
    assert lower == if n < 10 then (n + '0' as int) as char else (n - 10 + 'a' as int) as char;
    assert upper == if n < 10 then (n + '0' as int) as char else (n - 10 + 'A' as int) as char;
  }

  ghost predicate TwoDigitsFor(hi: Byte, lo: Byte, b: Byte) {
    IsDigitFor(hi, b as int / 16) && IsDigitFor(lo, b as int % 16)
  }

  lemma TwoDigitsMean(hi: Byte, lo: Byte, b: Byte)
    ensures TwoDigitsFor(hi, lo, b)
       <==> IsXDigit(hi) && IsXDigit(lo) && b as int == 16 * DigitValue(hi) + DigitValue(lo)
  {
    DigitsInEitherCase(hi, b as int / 16);
    DigitsInEitherCase(lo, b as int % 16);
  }

  ghost predicate DigitsFor(s: Bytes, v: Bytes) {
    |s| == 2 * |v| && forall k :: 0 <= k < |v| ==> TwoDigitsFor(s[2 * k], s[2 * k + 1], v[k])
  }

  /** A bytevalue line stands for `v` exactly when it is two digits for each byte of `v`, in either case. */
  lemma HexMeans(s: Bytes, v: Bytes)
    ensures DecodeHex(s) == Some(v)
       <==> DigitsFor(s, v)
  {
    HexDecodesIffWellFormed(s);
    if DecodeHex(s) == Some(v) {
      forall k | 0 <= k < |v| ensures TwoDigitsFor(s[2 * k], s[2 * k + 1], v[k]) {
        TwoDigitsMean(s[2 * k], s[2 * k + 1], v[k]);
      }
    }
    if DigitsFor(s, v) { DigitsDecode(s, v); }
  }

  lemma DigitsOfTail(s: Bytes, v: Bytes)
    requires v != [] && DigitsFor(s, v)
    ensures DigitsFor(s[2..], v[1..]) && TwoDigitsFor(s[0], s[1], v[0])
  {
    assert TwoDigitsFor(s[2 * 0], s[2 * 0 + 1], v[0]);
    forall k | 0 <= k < |v[1..]| ensures TwoDigitsFor(s[2..][2 * k], s[2..][2 * k + 1], v[1..][k]) {
      assert TwoDigitsFor(s[2 * (k + 1)], s[2 * (k + 1) + 1], v[k + 1]);
    }
  }

  lemma FirstDigits(hi: Byte, lo: Byte, b: Byte)
    requires TwoDigitsFor(hi, lo, b)
    ensures IsXDigit(hi) && IsXDigit(lo) && Unhex(hi, lo) == b
  {
    TwoDigitsMean(hi, lo, b);
    UnhexIsDigits(hi, lo);
  }

  lemma {:induction false} DigitsDecode(s: Bytes, v: Bytes)
    requires DigitsFor(s, v)
    ensures DecodeHex(s) == Some(v)
    decreases |v|
  {
    if v != [] {
      DigitsOfTail(s, v);
      FirstDigits(s[0], s[1], v[0]);
      DigitsDecode(s[2..], v[1..]);
      assert [v[0]] + v[1..] == v;
    }
  }

  /** The unit `t` of a print line stands for `b`: `b` itself, a doubled backslash, or a backslash and two
      hex digits in either case. */
  ghost predicate UnitFor(t: Bytes, b: Byte) {
    || (t == [b] && b != BACKSLASH)
    || (t == [BACKSLASH, BACKSLASH] && b == BACKSLASH)
    || (|t| == 3 && t[0] == BACKSLASH && TwoDigitsFor(t[1], t[2], b))
  }

  lemma UnitIsToken(t: Bytes, b: Byte)
    ensures UnitFor(t, b) <==> IsToken(t) && TokenByte(t) == b
  {
    if |t| == 3 { EscapeMeans(t[1], t[2], b); }
  }

  lemma EscapeMeans(hi: Byte, lo: Byte, b: Byte)
    ensures TwoDigitsFor(hi, lo, b) <==> IsXDigit(hi) && IsXDigit(lo) && Unhex(hi, lo) == b
  {
    TwoDigitsMean(hi, lo, b);
    if IsXDigit(hi) && IsXDigit(lo) { UnhexIsDigits(hi, lo); }
  }

  ghost predicate UnitsFor(ts: seq<Bytes>, v: Bytes) {
    |ts| == |v| && forall k :: 0 <= k < |v| ==> UnitFor(ts[k], v[k])
  }

  /** A print line stands for `v` exactly when it is made of one unit for each byte of `v`. */
  lemma TextMeans(s: Bytes, v: Bytes)
    ensures DecodeText(s) == Some(v) <==> exists ts :: UnitsFor(ts, v) && Flatten(ts) == s
  {
    if DecodeText(s) == Some(v) {
      var ts := DecodableIsTokens(s);
      TokensDecode(ts);
      TokensAreUnits(ts);
    }
    forall ts | UnitsFor(ts, v) && Flatten(ts) == s ensures DecodeText(s) == Some(v) {
      UnitsAreTokens(ts, v);
      TokensDecode(ts);
    }
  }

  lemma {:induction false} TokensAreUnits(ts: seq<Bytes>)
    requires AllTokens(ts)
    ensures UnitsFor(ts, TokenBytes(ts))
  {
    if ts != [] {
      TokensAreUnits(ts[1..]);
      UnitIsToken(ts[0], TokenByte(ts[0]));
      var v := TokenBytes(ts);
      forall k | 0 <= k < |v| ensures UnitFor(ts[k], v[k]) {
        if k > 0 { assert UnitFor(ts[1..][k - 1], TokenBytes(ts[1..])[k - 1]); }
      }
    }
  }

  lemma {:induction false} UnitsAreTokens(ts: seq<Bytes>, v: Bytes)
    requires UnitsFor(ts, v)
    ensures AllTokens(ts) && TokenBytes(ts) == v
    decreases |v|
  {
    forall k | 0 <= k < |ts| ensures IsToken(ts[k]) {
      UnitIsToken(ts[k], v[k]);
    }
    if v != [] {
      assert UnitsFor(ts[1..], v[1..]) by {
        forall k | 0 <= k < |v[1..]| ensures UnitFor(ts[1..][k], v[1..][k]) {
          assert UnitFor(ts[k + 1], v[k + 1]);
        }
      }
      UnitsAreTokens(ts[1..], v[1..]);
      UnitIsToken(ts[0], v[0]);
      assert [v[0]] + v[1..] == v;
    }
  }

  // ---------------------------------------------------------------- the encoders in full

  /** `text` works byte by byte. */
  lemma {:induction false} TextAppend(isprint: Locale, a: Bytes, b: Bytes)
    ensures TextOf(isprint, a + b) == TextOf(isprint, a) + TextOf(isprint, b)
  {
    if a == [] {
      assert a + b == b;
    } else {
      assert (a + b)[1..] == a[1..] + b;
      TextAppend(isprint, a[1..], b);
    }
  }

  /** A printable byte is printed as it is, the backslash twice, any other byte as a backslash and two
      lower-case hex digits. */
  lemma TextOfByte(isprint: Locale, c: Byte)
    ensures TextOf(isprint, [c])
         == if !isprint(c) then ['\\', "0123456789abcdef"[c as int / 16], "0123456789abcdef"[c as int % 16]]
            else if c == '\\' then ['\\', '\\'] else [c]
  {
    assert [c][1..] == [];
  }

  /** Printable text without a backslash is printed unchanged. */
  lemma {:induction false} PlainTextUnchanged(isprint: Locale, v: Bytes)
    requires forall k :: 0 <= k < |v| ==> isprint(v[k]) && v[k] != '\\'
    ensures TextOf(isprint, v) == v
  {
    if v != [] {
      PlainTextUnchanged(isprint, v[1..]);
      assert [v[0]] + v[1..] == v;
    }
  }

  /** The bytes of `v[..n]` that `text` doubles, and those it escapes. */
  ghost function Doubled(isprint: Locale, v: Bytes, n: nat): set<int>
    requires n <= |v|
  {
    set k | 0 <= k < n && isprint(v[k]) && v[k] == '\\'
  }

  ghost function Escaped(isprint: Locale, v: Bytes, n: nat): set<int>
    requires n <= |v|
  {
    set k | 0 <= k < n && !isprint(v[k])
  }

  lemma {:induction false} TextLengthUpTo(isprint: Locale, v: Bytes, n: nat)
    requires n <= |v|
    ensures |TextOf(isprint, v[..n])| == n + |Doubled(isprint, v, n)| + 2 * |Escaped(isprint, v, n)|
  {
    if n == 0 {
      assert Doubled(isprint, v, 0) == {} && Escaped(isprint, v, 0) == {};
    } else {
      TextLengthUpTo(isprint, v, n - 1);
      OneMoreByte(isprint, v, n - 1);
      OneMoreDoubled(isprint, v, n - 1);
      OneMoreEscaped(isprint, v, n - 1);
    }
  }

  lemma OneMoreByte(isprint: Locale, v: Bytes, n: nat)
    requires n < |v|
    ensures |TextOf(isprint, v[..n + 1])|
         == |TextOf(isprint, v[..n])| + if !isprint(v[n]) then 3 else if v[n] == '\\' then 2 else 1
  {
    assert v[..n + 1] == v[..n] + [v[n]];
    TextAppend(isprint, v[..n], [v[n]]);
    TextOfByte(isprint, v[n]);
  }

  lemma OneMoreDoubled(isprint: Locale, v: Bytes, n: nat)
    requires n < |v|
    ensures |Doubled(isprint, v, n + 1)| == |Doubled(isprint, v, n)| + if isprint(v[n]) && v[n] == '\\' then 1 else 0
  {
    assert Doubled(isprint, v, n + 1) == Doubled(isprint, v, n) + if isprint(v[n]) && v[n] == '\\' then {n} else {};
  }

  lemma OneMoreEscaped(isprint: Locale, v: Bytes, n: nat)
    requires n < |v|
    ensures |Escaped(isprint, v, n + 1)| == |Escaped(isprint, v, n)| + if isprint(v[n]) then 0 else 1
  {
    assert Escaped(isprint, v, n + 1) == Escaped(isprint, v, n) + if isprint(v[n]) then {} else {n};
  }

  /** Each printable backslash costs one byte more, each byte that is not printable two. */
  lemma TextLength(isprint: Locale, v: Bytes)
    ensures |TextOf(isprint, v)| == |v| + |Doubled(isprint, v, |v|)| + 2 * |Escaped(isprint, v, |v|)|
  {
    TextLengthUpTo(isprint, v, |v|);
    assert v[..|v|] == v;
  }

  /** `byte` writes two lower-case digits for each byte, high digit first. */
  lemma {:induction false} HexOfBytes(v: Bytes)
    ensures |HexOf(v)| == 2 * |v|
    ensures forall k :: 0 <= k < |v| ==>
              && HexOf(v)[2 * k] == "0123456789abcdef"[v[k] as int / 16]
              && HexOf(v)[2 * k + 1] == "0123456789abcdef"[v[k] as int % 16]
  {
    if v != [] {
      HexOfBytes(v[1..]);
      forall k | 0 <= k < |v|
        ensures HexOf(v)[2 * k] == "0123456789abcdef"[v[k] as int / 16]
        ensures HexOf(v)[2 * k + 1] == "0123456789abcdef"[v[k] as int % 16]
      {
        if k > 0 {
          var more := HexOf(v[1..]);
          assert HexOf(v)[2 * k] == more[2 * (k - 1)] && HexOf(v)[2 * k + 1] == more[2 * (k - 1) + 1];
          assert v[k] == v[1..][k - 1];
        }
      }
    }
  }

  // ---------------------------------------------------------------- lines

  /** Neither newline nor NUL: what a line may hold. */
  ghost predicate OneLine(s: Bytes) {
    forall k :: 0 <= k < |s| ==> s[k] != NEWLINE && s[k] != NUL
  }

  lemma {:induction false} TextIsOneLine(isprint: Locale, v: Bytes)
    requires Sane(isprint)
    ensures OneLine(TextOf(isprint, v))
  {
    if v != [] {
      HexIsPrintable(v[0]);
      TextIsOneLine(isprint, v[1..]);
    }
  }

  lemma {:induction false} HexIsOneLine(v: Bytes)
    ensures OneLine(HexOf(v))
  {
    if v != [] {
      HexIsPrintable(v[0]);
      HexIsOneLine(v[1..]);
    }
  }

  lemma HexIsPrintable(c: Byte)
    ensures OneLine(Hex(c))
  {
    HexDigitDecodes(c as int / 16);
    HexDigitDecodes(c as int % 16);
  }

  // ---------------------------------------------------------------- decoding in place

  /** The decoder has written `done` and still has to read `todo`. */
  ghost predicate Decoding(total: Option<Bytes>, done: Bytes, todo: Option<Bytes>) {
    total == Prepend(done, todo)
  }

  lemma DecodingStarts(total: Option<Bytes>)
    ensures Decoding(total, [], total)
  {
    if total.Some? { assert [] + total.value == total.value; }
  }

  lemma DecodingMoves(total: Option<Bytes>, done: Bytes, b: Byte, rest: Option<Bytes>)
    requires Decoding(total, done, Prepend([b], rest))
    ensures Decoding(total, done + [b], rest)
  {
    if rest.Some? { assert done + ([b] + rest.value) == done + [b] + rest.value; }
  }

  lemma DecodingEnds(total: Option<Bytes>, done: Bytes)
    requires Decoding(total, done, Some([]))
    ensures total == Some(done)
  {
    assert done + [] == done;
  }

  /** The unread part of the line, behind the write position. */
  ghost predicate Unread(buf: array<Byte>, s: Bytes, c2: nat)
    reads buf
  {
    |s| < buf.Length && forall k {:trigger buf[k]} :: c2 <= k < |s| ==> buf[k] == s[k]
  }

  /** How the decoding of a print line goes on at `c2`. */
  lemma DecodeTextAt(s: Bytes, c2: nat)
    requires c2 < |s|
    ensures s[c2] != BACKSLASH ==> DecodeText(s[c2..]) == Prepend([s[c2]], DecodeText(s[c2 + 1..]))
    ensures s[c2] == BACKSLASH && c2 + 1 < |s| && s[c2 + 1] == BACKSLASH ==>
      DecodeText(s[c2..]) == Prepend([BACKSLASH], DecodeText(s[c2 + 2..]))
    ensures s[c2] == BACKSLASH && !(c2 + 1 < |s| && s[c2 + 1] == BACKSLASH) ==>
      if c2 + 3 > |s| || !IsXDigit(s[c2 + 1]) || !IsXDigit(s[c2 + 2]) then DecodeText(s[c2..]) == None
      else DecodeText(s[c2..]) == Prepend([Unhex(s[c2 + 1], s[c2 + 2])], DecodeText(s[c2 + 3..]))
  {
    var t := s[c2..];
    assert t[1..] == s[c2 + 1..];
    if |t| >= 2 { assert t[1] == s[c2 + 1] && t[2..] == s[c2 + 2..]; }
    if |t| >= 3 { assert t[2] == s[c2 + 2] && t[3..] == s[c2 + 3..]; }
  }

  /** Reads one character or escape at `c2`. */
  method ReadTextByte(buf: array<Byte>, c2: nat, len: nat, ghost s: Bytes) returns (ok: bool, b: Byte, step: nat)
    requires len == |s| && c2 < |s| && Unread(buf, s, c2) && buf[|s|] == NUL
    ensures ok ==> 1 <= step <= |s| - c2 && DecodeText(s[c2..]) == Prepend([b], DecodeText(s[c2 + step..]))
    ensures !ok ==> DecodeText(s[c2..]) == None
  {
    DecodeTextAt(s, c2);
    b, step := buf[c2], 1;
    if buf[c2] == BACKSLASH {
      if buf[c2 + 1] == BACKSLASH {
        step := 2;
      } else {
        if c2 + 3 > len || !IsXDigit(buf[c2 + 1]) || !IsXDigit(buf[c2 + 2]) {
          return false, b, 0;
        }
        b := Unhex(buf[c2 + 1], buf[c2 + 2]);
        step := 3;
      }
    }
    ok := true;
  }

  /** Stores the decoded byte; the write position stays behind the read position. */
  method Store(buf: array<Byte>, c1: nat, c2: nat, step: nat, b: Byte,
               ghost s: Bytes, ghost total: Option<Bytes>, ghost rest: Option<Bytes>)
    requires c1 <= c2 && step >= 1 && c2 + step <= |s| && Unread(buf, s, c2)
    requires Decoding(total, buf[..c1], Prepend([b], rest))
    modifies buf
    ensures Unread(buf, s, c2 + step) && buf[|s|] == old(buf[|s|])
    ensures Decoding(total, buf[..c1 + 1], rest)
  {
    ghost var done := buf[..c1];
    DecodingMoves(total, done, b, rest);
    buf[c1] := b;
    assert buf[..c1 + 1] == done + [b];
  }

  /** The print branch of `readline`. The line occupies `[0, len)` and is followed by NUL, which is
      what the look-ahead `c2[1]` finds at the end. */
  method DecodeTextInPlace(buf: array<Byte>, len: nat) returns (ok: bool, size: nat)
    requires len < buf.Length && buf[len] == NUL
    modifies buf
    ensures ok <==> DecodeText(old(buf[..len])).Some?
    ensures ok ==> size <= len && Some(buf[..size]) == DecodeText(old(buf[..len]))
  {
    ghost var s := buf[..len];
    ghost var total := DecodeText(s);
    var c1, c2 := 0, 0;
    DecodingStarts(total);
    assert s[0..] == s && buf[..0] == [];
    while c2 < len
      invariant 0 <= c1 <= c2 <= len
      invariant Unread(buf, s, c2) && buf[len] == NUL
      invariant Decoding(total, buf[..c1], DecodeText(s[c2..]))
    {
      var more, b, step := ReadTextByte(buf, c2, len, s);
      if !more { return false, 0; }
      Store(buf, c1, c2, step, b, s, total, DecodeText(s[c2 + step..]));
      c1 := c1 + 1;
      c2 := c2 + step;
    }
    DecodingEnds(total, buf[..c1]);
    return true, c1;
  }

  method ReadHexByte(buf: array<Byte>, c2: nat, ghost s: Bytes) returns (ok: bool, b: Byte)
    requires c2 + 2 <= |s| && Unread(buf, s, c2)
    ensures if ok then DecodeHex(s[c2..]) == Prepend([b], DecodeHex(s[c2 + 2..])) else DecodeHex(s[c2..]) == None
  {
    assert s[c2..][2..] == s[c2 + 2..];
    ok := IsXDigit(buf[c2]) && IsXDigit(buf[c2 + 1]);
    b := if ok then Unhex(buf[c2], buf[c2 + 1]) else NUL;
  }

  lemma PairIsLeft(c2: nat, len: nat)
    requires c2 < len && c2 % 2 == 0 && len % 2 == 0
    ensures c2 + 2 <= len && (c2 + 2) % 2 == 0
  {
  }

  /** The bytevalue branch of `readline`. */
  method DecodeHexInPlace(buf: array<Byte>, len: nat) returns (ok: bool, size: nat)
    requires len < buf.Length
    modifies buf
    ensures ok <==> DecodeHex(old(buf[..len])).Some?
    ensures ok ==> size <= len && Some(buf[..size]) == DecodeHex(old(buf[..len]))
  {
    ghost var s := buf[..len];
    ghost var total := DecodeHex(s);
    if len % 2 == 1 {
      HexAccepts(s);
      return false, 0;
    }
    var c1, c2 := 0, 0;
    DecodingStarts(total);
    assert s[0..] == s && buf[..0] == [];
    while c2 < len
      invariant 0 <= c1 <= c2 <= len && c2 % 2 == 0
      invariant Unread(buf, s, c2)
      invariant Decoding(total, buf[..c1], DecodeHex(s[c2..]))
    {
      PairIsLeft(c2, len);
      var more, b := ReadHexByte(buf, c2, s);
      if !more { return false, 0; }
      Store(buf, c1, c2, 2, b, s, total, DecodeHex(s[c2 + 2..]));
      c1 := c1 + 1;
      c2 := c2 + 2;
    }
    DecodingEnds(total, buf[..c1]);
    return true, c1;
  }
}
