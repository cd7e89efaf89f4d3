/** Chunked transfer coding (RFC 9112, section 7.1): the incremental reader against a decoder of the whole input. */
module Chunked {
  import opened Prelude

  const MAX_METADATA := 8 * 1024
  const SEMICOLON: byte := 59
  const COLON: byte := 58

  /** A source of bytes that come in arbitrary pieces; over a socket a read may also fail. */
  class ByteSource {
    const mayFault: bool

    /** Everything that will still come before the end of the stream. */
    var rest: Bytes

    ghost var faults: nat

    constructor (rest: Bytes, mayFault: bool)
      ensures this.rest == rest && this.mayFault == mayFault && faults == 0
    {
      this.mayFault := mayFault;
      this.rest := rest;
      faults := 0;
    }

    /** Some of what is to come, at most `max` bytes; nothing only at the end. */
    method Read(max: nat) returns (r: Result<Bytes>)
      modifies this
      ensures faults >= old(faults) && (!mayFault ==> faults == old(faults))
      ensures r.Ok? ==> old(rest) == r.value + rest && |r.value| <= max && faults == old(faults)
      ensures r.Ok? && r.value == [] ==> max == 0 || rest == []
      ensures r.Err? ==> r == Err(Io) && faults > old(faults) && rest == old(rest)
    {
      var fails: bool := *;
      if mayFault && fails {
        faults := faults + 1;
        return Err(Io);
      }
      var n: int := *;
      n := if 0 < n <= Min(max, |rest|) then n else Min(max, |rest|);
      r := Ok(rest[..n]);
      rest := rest[n..];
    }

    /** Puts bytes read too far back in front, as chaining them before the stream does. */
    method Unread(front: Bytes)
      modifies this`rest
      ensures rest == front + old(rest)
    {
      rest := front + rest;
    }
  }

  /** The position of the first line feed among the first `limit` bytes. */
  function NewlineAt(input: Bytes, limit: nat): (at: Option<nat>)
    ensures at.Some? ==> at.value < limit && at.value < |input| && input[at.value] == LF && LF !in input[..at.value]
    ensures at.None? ==> LF !in input[..Min(limit, |input|)]
  {
    if limit == 0 || input == [] then None
    else if input[0] == LF then Some(0)
    else
      var later := NewlineAt(input[1..], limit - 1);
      assert input == [input[0]] + input[1..];
      if later.None? then None else Some(later.value + 1)
  }

  /** A line with its CRLF, if one ends within the limit. */
  function TakeLine(input: Bytes, limit: nat): (line: Option<Bytes>)
    ensures line.Some? ==> 2 <= |line.value| <= limit && line.value <= input && line.value[|line.value| - 2..] == CRLF
  {
    var at := NewlineAt(input, limit);
    if at.None? || at.value == 0 || input[at.value - 1] != CR then None else Some(input[..at.value + 1])
  }

  function HexDigit(b: byte): Option<nat> {
    if 48 <= b <= 57 then Some(b as int - 48)
    else if 65 <= b <= 70 then Some(b as int - 55)
    else if 97 <= b <= 102 then Some(b as int - 87)
    else None
  }

  /** The number that hexadecimal digits spell. */
  function HexValue(digits: Bytes): Option<nat> {
    if digits == [] then Some(0)
    else
      var high, low := HexValue(digits[..|digits| - 1]), HexDigit(digits[|digits| - 1]);
      if high.None? || low.None? then None else Some(16 * high.value + low.value)
  }

  /** What comes before the first `separator`. */
  function UpTo(bytes: Bytes, separator: byte): Bytes {
    if bytes == [] || bytes[0] == separator then [] else [bytes[0]] + UpTo(bytes[1..], separator)
  }

  /** The chunk size a line announces: hexadecimal digits before any extension, and it must fit 64 bits. */
  function ParseSize(line: Bytes): (size: Option<nat>)
    requires |line| >= 2
    ensures size.Some? ==> size.value < U64_LIMIT
  {
    var field := UpTo(line[..|line| - 2], SEMICOLON);
    var value := HexValue(field);
    if field == [] || value.None? || value.value >= U64_LIMIT then None else value
  }

  /** A trailer line, its ending aside, must hold a colon. */
  predicate IsField(line: Bytes)
    requires |line| >= 2
  {
    COLON in line[..|line| - 2]
  }

  /** What follows the trailer section, if the section is well formed and within its budget. */
  function SkipTrailers(input: Bytes, budget: nat): Option<Bytes>
    decreases budget
  {
    var line := TakeLine(input, budget);
    if line.None? then None
    else if line.value == CRLF then Some(input[|line.value|..])
    else if !IsField(line.value) then None
    else SkipTrailers(input[|line.value|..], budget - |line.value|)
  }

  /** The body decoded, whether it ended properly, and what follows it if so. */
  datatype Body = Body(data: Bytes, ok: bool, rest: Bytes)

  const BROKEN: Body := Body([], false, [])

  function Prepend(data: Bytes, body: Body): Body {
    body.(data := data + body.data)
  }

  datatype Boundary = Bad | Last(rest: Bytes) | Chunk(size: nat, rest: Bytes)

  /** What a size line and what follows it amount to. */
  function SizeOf(size: Option<nat>, after: Bytes): (b: Boundary)
    ensures b.Chunk? ==> b.size > 0 && Some(b.size) == size && b.rest == after
    ensures b.Last? ==> |b.rest| < |after|
  {
    if size.None? then Bad
    else if size.value > 0 then Chunk(size.value, after)
    else
      var rest := SkipTrailers(after, MAX_METADATA);
      SkipTrailersShrinks(after, MAX_METADATA);
      if rest.None? then Bad else Last(rest.value)
  }

  function ReadSize(from: Bytes): (b: Boundary)
    ensures b.Chunk? ==> 0 < b.size < U64_LIMIT && |b.rest| < |from|
    ensures b.Last? ==> |b.rest| <= |from|
  {
    var line := TakeLine(from, MAX_METADATA);
    if line.None? then Bad else SizeOf(ParseSize(line.value), from[|line.value|..])
  }

  /** What stands between two chunks: the end of the previous one, then a size line. */
  function ReadBoundary(needsCrlf: bool, input: Bytes): (b: Boundary)
    ensures b.Chunk? ==> 0 < b.size < U64_LIMIT && |b.rest| < |input|
    ensures b.Last? ==> |b.rest| <= |input|
  {
    if !needsCrlf then ReadSize(input)
    else if |input| < 2 || input[..2] != CRLF then Bad
    else ReadSize(input[2..])
  }

  lemma {:induction false} SkipTrailersShrinks(input: Bytes, budget: nat)
    ensures SkipTrailers(input, budget).Some? ==> |SkipTrailers(input, budget).value| < |input|
    decreases budget
  {
    var line := TakeLine(input, budget);
    hide TakeLine;
    if line.Some? && line.value != CRLF && IsField(line.value) {
      SkipTrailersShrinks(input[|line.value|..], budget - |line.value|);
    }
  }

  /** The decoder of a whole input. */
  function Decode(needsCrlf: bool, input: Bytes): Body
    decreases |input|
  {
    match ReadBoundary(needsCrlf, input)
    case Bad => BROKEN
    case Last(rest) => Body([], true, rest)
    case Chunk(size, rest) =>
      if |rest| < size then Body(rest, false, []) else Prepend(rest[..size], Decode(true, rest[size..]))
  }

  // ----- A finished body does not depend on what follows it -----

  lemma {:induction false} NewlineStays(input: Bytes, limit: nat, more: Bytes)
    requires NewlineAt(input, limit).Some?
    ensures NewlineAt(input + more, limit) == NewlineAt(input, limit)
  {
    if input[0] != LF {
      assert (input + more)[1..] == input[1..] + more;
      NewlineStays(input[1..], limit - 1, more);
    }
  }

  lemma LineStays(input: Bytes, limit: nat, more: Bytes)
    requires TakeLine(input, limit).Some?
    ensures TakeLine(input + more, limit) == TakeLine(input, limit)
    ensures (input + more)[|TakeLine(input, limit).value|..] == input[|TakeLine(input, limit).value|..] + more
  {
    NewlineStays(input, limit, more);
    var at := NewlineAt(input, limit).value;
    assert (input + more)[..at + 1] == input[..at + 1];
  }

  lemma {:induction false} TrailersStay(input: Bytes, budget: nat, more: Bytes)
    requires SkipTrailers(input, budget).Some?
    ensures SkipTrailers(input + more, budget) == Some(SkipTrailers(input, budget).value + more)
    decreases budget
  {
    LineStays(input, budget, more);
    var line := TakeLine(input, budget).value;
    hide TakeLine;
    if line != CRLF {
      TrailersStay(input[|line|..], budget - |line|, more);
      TrailersGoOn(input, budget, line);
      TrailersGoOn(input + more, budget, line);
    } else {
      assert SkipTrailers(input + more, budget) == Some((input + more)[|line|..]);
    }
  }

  lemma TrailersGoOn(input: Bytes, budget: nat, line: Bytes)
    requires TakeLine(input, budget) == Some(line) && line != CRLF
    ensures SkipTrailers(input, budget)
            == if IsField(line) then SkipTrailers(input[|line|..], budget - |line|) else None
  {
    hide TakeLine, IsField;
    if IsField(line) {
      var rest, left := input[|line|..], budget - |line|;
      assert SkipTrailers(input, budget) == SkipTrailers(rest, left);
    }
  }

  lemma SizeStays(from: Bytes, more: Bytes)
    requires ReadSize(from) != Bad
    ensures
      var b, c := ReadSize(from), ReadSize(from + more);
      if b.Last? then c == Last(b.rest + more) else c == Chunk(b.size, b.rest + more)
  {
    LineStays(from, MAX_METADATA, more);
    var line := TakeLine(from, MAX_METADATA).value;
    SizeIs(from, line);
    SizeIs(from + more, line);
    hide ReadSize, TakeLine, ParseSize, SizeOf;
    SizeOfStays(ParseSize(line), from[|line|..], more);
  }

  lemma SizeOfStays(size: Option<nat>, after: Bytes, more: Bytes)
    requires SizeOf(size, after) != Bad
    ensures
      var b, c := SizeOf(size, after), SizeOf(size, after + more);
      if b.Last? then c == Last(b.rest + more) else c == Chunk(b.size, b.rest + more)
  {
    hide SkipTrailers;
    if size == Some(0) {
      TrailersStay(after, MAX_METADATA, more);
    }
  }

  lemma SizeIs(from: Bytes, line: Bytes)
    requires TakeLine(from, MAX_METADATA) == Some(line)
    ensures ReadSize(from) == SizeOf(ParseSize(line), from[|line|..])
  {
    hide TakeLine, SkipTrailers, ParseSize;
  }

  lemma BoundaryStays(needsCrlf: bool, input: Bytes, more: Bytes)
    requires ReadBoundary(needsCrlf, input) != Bad
    ensures
      var b, c := ReadBoundary(needsCrlf, input), ReadBoundary(needsCrlf, input + more);
      if b.Last? then c == Last(b.rest + more) else c == Chunk(b.size, b.rest + more)
  {
    hide ReadSize;
    if needsCrlf {
      assert (input + more)[..2] == input[..2];
      assert (input + more)[2..] == input[2..] + more;
      SizeStays(input[2..], more);
    } else {
      SizeStays(input, more);
    }
  }

  lemma {:induction false} DecodeStays(needsCrlf: bool, input: Bytes, more: Bytes)
    requires Decode(needsCrlf, input).ok
    ensures
      var body := Decode(needsCrlf, input);
      Decode(needsCrlf, input + more) == Body(body.data, true, body.rest + more) && |body.rest| <= |input|
    decreases |input|
  {
    hide ReadBoundary;
    BoundaryStays(needsCrlf, input, more);
    var b := ReadBoundary(needsCrlf, input);
    if b.Chunk? {
      assert (b.rest + more)[..b.size] == b.rest[..b.size];
      assert (b.rest + more)[b.size..] == b.rest[b.size..] + more;
      DecodeStays(true, b.rest[b.size..], more);
    }
  }

  /** Every strict prefix of a complete encoding is an error, never a shorter success. */
  lemma StrictPrefixFails(encoded: Bytes, n: nat)
    requires Decode(false, encoded).ok && Decode(false, encoded).rest == [] && n < |encoded|
    ensures !Decode(false, encoded[..n]).ok
  {
    hide Decode;
    if Decode(false, encoded[..n]).ok {
      assert encoded == encoded[..n] + encoded[n..];
      DecodeStays(false, encoded[..n], encoded[n..]);
    }
  }

  // ----- Encoding -----

  /** One chunk: its data, its size as hexadecimal digits of any form, and an extension, possibly empty. */
  datatype ChunkText = ChunkText(digits: Bytes, extension: Bytes, data: Bytes)

  predicate SizeTextOk(digits: Bytes, extension: Bytes, size: nat) {
    && digits != [] && HexValue(digits) == Some(size) && size < U64_LIMIT
    && (extension == [] || extension[0] == SEMICOLON) && LF !in extension
    && |digits| + |extension| + 2 <= MAX_METADATA
  }

  predicate ChunksOk(chunks: seq<ChunkText>) {
    chunks == [] || (chunks[0].data != [] && SizeTextOk(chunks[0].digits, chunks[0].extension,
                                                        |chunks[0].data|) && ChunksOk(chunks[1..]))
  }

  predicate TrailersOk(trailers: seq<Bytes>, budget: int) {
    if trailers == [] then budget >= 2
    else COLON in trailers[0] && LF !in trailers[0] && TrailersOk(trailers[1..], budget - |trailers[0]| - 2)
  }

  function TrailersText(trailers: seq<Bytes>): Bytes {
    if trailers == [] then CRLF else trailers[0] + CRLF + TrailersText(trailers[1..])
  }

  /** The chunks, each preceded by the end of the one before it, then the last-chunk line and the trailers. */
  function Encode(needsCrlf: bool, chunks: seq<ChunkText>, zero: ChunkText, trailers: seq<Bytes>): Bytes
    decreases |chunks|
  {
    (if needsCrlf then CRLF else [])
    + if chunks == [] then zero.digits + zero.extension + CRLF + TrailersText(trailers)
      else chunks[0].digits + chunks[0].extension + CRLF + (chunks[0].data + Encode(true, chunks[1..], zero, trailers))
  }

  function DataOf(chunks: seq<ChunkText>): Bytes {
    if chunks == [] then [] else chunks[0].data + DataOf(chunks[1..])
  }

  lemma {:induction false} HexHasNoLineFeed(digits: Bytes)
    requires HexValue(digits).Some?
    ensures LF !in digits && SEMICOLON !in digits
  {
    if digits != [] {
      var init := digits[..|digits| - 1];
      HexHasNoLineFeed(init);
      assert digits == init + [digits[|digits| - 1]];
    }
  }

  lemma {:induction false} NewlineIsAt(line: Bytes, rest: Bytes, limit: nat)
    requires LF !in line && |line| < limit
    ensures NewlineAt(line + [LF] + rest, limit) == Some(|line|)
  {
    var all := line + [LF] + rest;
    if line == [] {
      assert all[0] == LF;
    } else {
      assert line == [line[0]] + line[1..];
      NewlineIsAt(line[1..], rest, limit - 1);
      assert all[1..] == line[1..] + [LF] + rest;
    }
  }

  lemma LineIsTaken(text: Bytes, rest: Bytes, limit: nat)
    requires LF !in text && |text| + 2 <= limit
    ensures TakeLine(text + CRLF + rest, limit) == Some(text + CRLF)
    ensures (text + CRLF + rest)[|text + CRLF|..] == rest
  {
    NewlineIsAt(text + [CR], rest, limit);
    assert text + CRLF + rest == (text + [CR]) + [LF] + rest;
    assert (text + CRLF + rest)[..|text| + 2] == text + CRLF;
  }

  lemma FirstTrailer(trailer: Bytes, tail: Bytes, budget: nat)
    requires COLON in trailer && LF !in trailer && |trailer| + 2 <= budget
    ensures SkipTrailers(trailer + CRLF + tail, budget) == SkipTrailers(tail, budget - |trailer| - 2)
  {
    var line := trailer + CRLF;
    LineIsTaken(trailer, tail, budget);
    assert line[..|line| - 2] == trailer;
    assert |line| != 2;
    TrailersGoOn(line + tail, budget, line);
    hide TakeLine, SkipTrailers;
  }

  lemma NoMoreTrailers(rest: Bytes, budget: nat)
    requires budget >= 2
    ensures SkipTrailers(CRLF + rest, budget) == Some(rest)
  {
    LineIsTaken([], rest, budget);
    assert [] + CRLF == CRLF;
    hide TakeLine;
  }

  lemma {:induction false} TrailersSkipped(trailers: seq<Bytes>, budget: nat, rest: Bytes)
    requires TrailersOk(trailers, budget)
    ensures SkipTrailers(TrailersText(trailers) + rest, budget) == Some(rest)
    decreases |trailers|
  {
    hide SkipTrailers;
    if trailers == [] {
      NoMoreTrailers(rest, budget);
    } else {
      var tail := TrailersText(trailers[1..]) + rest;
      NonNegativeBudget(trailers[1..], budget - |trailers[0]| - 2);
      assert TrailersText(trailers) + rest == trailers[0] + CRLF + tail;
      FirstTrailer(trailers[0], tail, budget);
      TrailersSkipped(trailers[1..], budget - |trailers[0]| - 2, rest);
    }
  }

  lemma {:induction false} NonNegativeBudget(trailers: seq<Bytes>, budget: int)
    requires TrailersOk(trailers, budget)
    ensures budget >= 2
    decreases |trailers|
  {
    if trailers != [] {
      NonNegativeBudget(trailers[1..], budget - |trailers[0]| - 2);
    }
  }

  lemma {:induction false} UpToIs(before: Bytes, after: Bytes)
    requires SEMICOLON !in before && (after == [] || after[0] == SEMICOLON)
    ensures UpTo(before + after, SEMICOLON) == before
  {
    if before == [] {
      assert before + after == after;
    } else {
      assert before == [before[0]] + before[1..];
      assert (before + after)[1..] == before[1..] + after;
      UpToIs(before[1..], after);
    }
  }

  lemma SizeLineParses(digits: Bytes, extension: Bytes, size: nat, rest: Bytes)
    requires SizeTextOk(digits, extension, size)
    ensures ReadSize(digits + extension + CRLF + rest) == SizeOf(Some(size), rest)
  {
    var text := digits + extension;
    HexHasNoLineFeed(digits);
    LineIsTaken(text, rest, MAX_METADATA);
    UpToIs(digits, extension);
    assert (text + CRLF)[..|text + CRLF| - 2] == text;
    hide TakeLine, UpTo, HexValue, SizeOf;
    assert ParseSize(text + CRLF) == Some(size);
  }

  lemma AfterCrlf(input: Bytes, needsCrlf: bool)
    ensures ReadBoundary(needsCrlf, (if needsCrlf then CRLF else []) + input) == ReadSize(input)
  {
    hide ReadSize;
    if needsCrlf {
      assert (CRLF + input)[..2] == CRLF && (CRLF + input)[2..] == input;
    } else {
      assert [] + input == input;
    }
  }

  /**
   * Decoding inverts encoding: for every body and every way to cut it into chunks, with any digits, extensions and
   * trailers within the metadata budget, and whatever follows.
   */
  lemma {:induction false} DecodeEncode(needsCrlf: bool, chunks: seq<ChunkText>, zero: ChunkText, trailers: seq<Bytes>,
                                        rest: Bytes)
    requires ChunksOk(chunks) && SizeTextOk(zero.digits, zero.extension, 0) && TrailersOk(trailers, MAX_METADATA)
    ensures Decode(needsCrlf, Encode(needsCrlf, chunks, zero, trailers) + rest) == Body(DataOf(chunks), true, rest)
    decreases |chunks|
  {
    var crlf := if needsCrlf then CRLF else [];
    var input := Encode(needsCrlf, chunks, zero, trailers) + rest;
    if chunks == [] {
      var after := TrailersText(trailers) + rest;
      var line := zero.digits + zero.extension + CRLF;
      assert input == crlf + (line + after);
      AfterCrlf(line + after, needsCrlf);
      SizeLineParses(zero.digits, zero.extension, 0, after);
      TrailersSkipped(trailers, MAX_METADATA, rest);
      hide ReadSize, ReadBoundary, SizeTextOk;
    } else {
      var c := chunks[0];
      var tail := Encode(true, chunks[1..], zero, trailers) + rest;
      assert input == crlf + (c.digits + c.extension + CRLF + (c.data + tail));
      hide ReadSize, ReadBoundary, SizeTextOk, Encode, Decode;
      DecodeEncode(true, chunks[1..], zero, trailers, rest);
      FirstChunk(needsCrlf, c, tail);
    }
  }

  lemma FirstChunk(needsCrlf: bool, c: ChunkText, tail: Bytes)
    requires c.data != [] && SizeTextOk(c.digits, c.extension, |c.data|)
    ensures Decode(needsCrlf, (if needsCrlf then CRLF else []) + (c.digits + c.extension + CRLF + (c.data + tail)))
            == Prepend(c.data, Decode(true, tail))
  {
    AfterCrlf(c.digits + c.extension + CRLF + (c.data + tail), needsCrlf);
    SizeLineParses(c.digits, c.extension, |c.data|, c.data + tail);
    hide ReadSize, ReadBoundary, SizeTextOk;
    assert (c.data + tail)[..|c.data|] == c.data && (c.data + tail)[|c.data|..] == tail;
  }

  /** Cutting an encoding short anywhere makes it an error. */
  lemma TruncationFails(chunks: seq<ChunkText>, zero: ChunkText, trailers: seq<Bytes>, n: nat)
    requires ChunksOk(chunks) && SizeTextOk(zero.digits, zero.extension, 0) && TrailersOk(trailers, MAX_METADATA)
    requires n < |Encode(false, chunks, zero, trailers)|
    ensures !Decode(false, Encode(false, chunks, zero, trailers)[..n]).ok
  {
    DecodeEncode(false, chunks, zero, trailers, []);
    var encoded := Encode(false, chunks, zero, trailers);
    assert encoded + [] == encoded;
    StrictPrefixFails(encoded, n);
  }

  function HexChar(d: nat): byte
    requires d < 16
  {
    if d < 10 then 48 + d else 87 + d
  }

  /** The usual digits of a size. */
  function Hex(n: nat): Bytes {
    (if n < 16 then [] else Hex(n / 16)) + [HexChar(n % 16)]
  }

  lemma HexCharIsDigit(d: nat)
    requires d < 16
    ensures HexDigit(HexChar(d)) == Some(d)
  {
  }

  lemma OneMoreDigit(high: Bytes, d: nat)
    requires d < 16 && HexValue(high).Some?
    ensures HexValue(high + [HexChar(d)]) == Some(16 * HexValue(high).value + d)
  {
    var digits := high + [HexChar(d)];
    HexCharIsDigit(d);
    hide HexDigit, HexChar;
    assert digits[..|digits| - 1] == high;
  }

  /** Every size has digits. */
  lemma {:induction false} HexRoundTrip(n: nat)
    ensures Hex(n) != [] && HexValue(Hex(n)) == Some(n)
  {
    hide HexChar;
    if n >= 16 {
      HexRoundTrip(n / 16);
      OneMoreDigit(Hex(n / 16), n % 16);
    } else {
      assert HexValue([]) == Some(0);
      OneMoreDigit([], n % 16);
    }
  }
}
