/** Chunked bodies spelled out: which bytes announce a size, and that nothing but an encoding is accepted. */
module ChunkedWire {
  import opened Prelude
  import opened Chunked

  // ----- Sizes -----

  function Zeros(k: nat): Bytes {
    if k == 0 then [] else Zeros(k - 1) + [48]
  }

  /** The same hexadecimal digit, or the same letter in its two cases. */
  predicate SameDigit(a: byte, b: byte) {
    a == b || (97 <= a <= 102 && b == a - 32) || (97 <= b <= 102 && a == b - 32)
  }

  predicate SameDigits(a: Bytes, b: Bytes) {
    |a| == |b| && forall i :: 0 <= i < |a| ==> SameDigit(a[i], b[i])
  }

  /** The usual digits of a number, in either case, after any number of zeros. */
  ghost predicate Spells(digits: Bytes, n: nat) {
    exists k: nat :: SameDigits(digits, Zeros(k) + Hex(n))
  }

  lemma SameDigitValue(a: byte, b: byte)
    ensures SameDigit(a, b) && HexDigit(b).Some? ==> HexDigit(a) == HexDigit(b)
    ensures HexDigit(a).Some? ==> SameDigit(a, HexChar(HexDigit(a).value))
  {
  }

  /** Upper and lower case spell the same number. */
  lemma {:induction false} CaseIgnored(a: Bytes, b: Bytes)
    requires SameDigits(a, b) && HexValue(b).Some?
    ensures HexValue(a) == HexValue(b)
  {
    if a != [] {
      var n := |a| - 1;
      assert SameDigit(a[n], b[n]);
      SameDigitValue(a[n], b[n]);
      assert SameDigits(a[..n], b[..n]);
      hide HexDigit;
      CaseIgnored(a[..n], b[..n]);
    }
  }

  lemma {:induction false} ZerosValue(k: nat)
    ensures HexValue(Zeros(k)) == Some(0)
  {
    if k > 0 {
      ZerosValue(k - 1);
      assert Zeros(k) == Zeros(k - 1) + [HexChar(0)];
      OneMoreDigit(Zeros(k - 1), 0);
    }
  }

  lemma {:induction false} SpelledValue(k: nat, n: nat)
    ensures HexValue(Zeros(k) + Hex(n)) == Some(n)
    decreases n
  {
    ZerosValue(k);
    LastDigit(k, n);
    hide *;
    if n >= 16 {
      SpelledValue(k, n / 16);
      OneMoreDigit(Zeros(k) + Hex(n / 16), n % 16);
    } else {
      OneMoreDigit(Zeros(k), n);
    }
  }

  lemma LastDigit(k: nat, n: nat)
    ensures Zeros(k) + Hex(n) == (if n < 16 then Zeros(k) else Zeros(k) + Hex(n / 16)) + [HexChar(n % 16)]
  {
    hide HexChar, Zeros;
  }

  lemma LongerSpelling(high: Bytes, k: nat, v: nat, d: nat) returns (longer: nat)
    requires d < 16 && (high == [] || high == Zeros(k) + Hex(v)) && (high == [] ==> v == 0)
    ensures high + [HexChar(d)] == Zeros(longer) + Hex(16 * v + d)
  {
    assert (16 * v + d) / 16 == v && (16 * v + d) % 16 == d;
    if high == [] {
      longer := 0;
    } else if v > 0 {
      longer := k;
    } else {
      longer := k + 1;
    }
  }

  lemma {:induction false} ValueIsSpelled(digits: Bytes) returns (k: nat)
    requires digits != [] && HexValue(digits).Some?
    ensures SameDigits(digits, Zeros(k) + Hex(HexValue(digits).value))
  {
    var n := |digits| - 1;
    var high, b := digits[..n], digits[n];
    var v, d := HexValue(high).value, HexDigit(b).value;
    assert HexValue(digits).value == 16 * v + d && d < 16 && digits == high + [b];
    assert high == [] ==> v == 0;
    SameDigitValue(b, b);
    hide HexValue, HexDigit, HexChar, Hex, Zeros;
    k := 0;
    var plain: Bytes := [];
    if high != [] {
      k := ValueIsSpelled(high);
      plain := Zeros(k) + Hex(v);
    }
    k := LongerSpelling(plain, k, v, d);
    assert SameDigits(high, plain);
  }

  /** The digits of a size line have this value exactly if they spell it; `ParseSize` asks that it fit 64 bits. */
  lemma HexIff(digits: Bytes, n: nat)
    ensures digits != [] && HexValue(digits) == Some(n) <==> Spells(digits, n)
  {
    if digits != [] && HexValue(digits) == Some(n) {
      hide HexValue;
      var k := ValueIsSpelled(digits);
    }
    if Spells(digits, n) {
      var k: nat :| SameDigits(digits, Zeros(k) + Hex(n));
      SpelledValue(k, n);
      HexRoundTrip(n);
      hide HexValue, Hex, Zeros;
      CaseIgnored(digits, Zeros(k) + Hex(n));
    }
  }

  // ----- Accepted is encoded -----

  lemma {:induction false} UpToSplits(bytes: Bytes, separator: byte)
    ensures
      var before := UpTo(bytes, separator);
      && before <= bytes && separator !in before
      && (bytes[|before|..] == [] || bytes[|before|..][0] == separator)
  {
    if bytes != [] && bytes[0] != separator {
      UpToSplits(bytes[1..], separator);
      var before := UpTo(bytes[1..], separator);
      assert bytes == [bytes[0]] + bytes[1..];
      assert bytes[|before| + 1..] == bytes[1..][|before|..];
    }
  }

  lemma LineHolds(input: Bytes, limit: nat, line: Bytes)
    requires TakeLine(input, limit) == Some(line)
    ensures 2 <= |line| <= limit && line == line[..|line| - 2] + CRLF && LF !in line[..|line| - 2]
    ensures input == line + input[|line|..]
  {
  }

  lemma SizeLineIs(from: Bytes, size: nat) returns (text: ChunkText)
    requires TakeLine(from, MAX_METADATA).Some?
    requires ParseSize(TakeLine(from, MAX_METADATA).value) == Some(size)
    ensures SizeTextOk(text.digits, text.extension, size) && text.data == []
    ensures TakeLine(from, MAX_METADATA).value == text.digits + text.extension + CRLF
  {
    var line := TakeLine(from, MAX_METADATA).value;
    LineHolds(from, MAX_METADATA, line);
    var body := line[..|line| - 2];
    UpToSplits(body, SEMICOLON);
    text := ChunkText(UpTo(body, SEMICOLON), body[|UpTo(body, SEMICOLON)|..], []);
    assert body == text.digits + text.extension;
  }

  lemma OneMoreTrailer(text: Bytes, others: seq<Bytes>, budget: nat, rest: Bytes)
    requires COLON in text && LF !in text && |text| + 2 <= budget && TrailersOk(others, budget - |text| - 2)
    ensures TrailersOk([text] + others, budget)
    ensures TrailersText([text] + others) + rest == (text + CRLF) + (TrailersText(others) + rest)
  {
    assert ([text] + others)[1..] == others;
  }

  lemma {:induction false} TrailersAre(input: Bytes, budget: nat) returns (trailers: seq<Bytes>)
    requires SkipTrailers(input, budget).Some?
    ensures TrailersOk(trailers, budget)
    ensures input == TrailersText(trailers) + SkipTrailers(input, budget).value
    decreases budget
  {
    var line := TakeLine(input, budget).value;
    LineHolds(input, budget, line);
    if line == CRLF {
      trailers := [];
    } else {
      TrailersGoOn(input, budget, line);
      assert COLON in line[..|line| - 2];
      hide *;
      var others := TrailersAre(input[|line|..], budget - |line|);
      trailers := [line[..|line| - 2]] + others;
      OneMoreTrailer(line[..|line| - 2], others, budget, SkipTrailers(input, budget).value);
    }
  }

  lemma SizeMeans(from: Bytes)
    requires ReadSize(from) != Bad
    ensures TakeLine(from, MAX_METADATA).Some?
    ensures
      var b, line := ReadSize(from), TakeLine(from, MAX_METADATA).value;
      && 2 <= |line| <= |from| && from == line + from[|line|..]
      && (b.Last? ==>
            ParseSize(line) == Some(0) && SkipTrailers(from[|line|..], MAX_METADATA) == Some(b.rest))
      && (b.Chunk? ==> ParseSize(line) == Some(b.size) && from[|line|..] == b.rest)
  {
    hide ParseSize, SkipTrailers;
    LineHolds(from, MAX_METADATA, TakeLine(from, MAX_METADATA).value);
  }

  lemma LastBoundary(from: Bytes, rest: Bytes) returns (zero: ChunkText, trailers: seq<Bytes>)
    requires ReadSize(from) == Last(rest)
    ensures SizeTextOk(zero.digits, zero.extension, 0) && TrailersOk(trailers, MAX_METADATA)
    ensures from == (zero.digits + zero.extension + CRLF) + (TrailersText(trailers) + rest)
  {
    hide *;
    SizeMeans(from);
    zero := SizeLineIs(from, 0);
    trailers := TrailersAre(from[|TakeLine(from, MAX_METADATA).value|..], MAX_METADATA);
  }

  lemma ChunkBoundary(from: Bytes, size: nat, rest: Bytes) returns (text: ChunkText)
    requires ReadSize(from) == Chunk(size, rest)
    ensures SizeTextOk(text.digits, text.extension, size) && text.data == []
    ensures from == (text.digits + text.extension + CRLF) + rest
  {
    hide *;
    SizeMeans(from);
    text := SizeLineIs(from, size);
  }

  lemma AfterBoundary(needsCrlf: bool, input: Bytes) returns (from: Bytes)
    requires ReadBoundary(needsCrlf, input) != Bad
    ensures ReadBoundary(needsCrlf, input) == ReadSize(from) && input == (if needsCrlf then CRLF else []) + from
  {
    from := if needsCrlf then input[2..] else input;
    hide ReadSize;
    if needsCrlf {
      assert input == input[..2] + input[2..];
    }
  }

  lemma NoMoreChunks(needsCrlf: bool, zero: ChunkText, trailers: seq<Bytes>, rest: Bytes)
    ensures Encode(needsCrlf, [], zero, trailers) + rest
            == (if needsCrlf then CRLF else [])
               + ((zero.digits + zero.extension + CRLF) + (TrailersText(trailers) + rest))
    ensures ChunksOk([]) && DataOf([]) == []
  {
    hide TrailersText;
  }

  /** A chunk in front of an encoding makes an encoding. */
  lemma OneMoreChunk(needsCrlf: bool, text: ChunkText, data: Bytes, chunks: seq<ChunkText>, zero: ChunkText,
                     trailers: seq<Bytes>, rest: Bytes)
    requires data != [] && SizeTextOk(text.digits, text.extension, |data|) && ChunksOk(chunks)
    ensures
      var crlf, all := if needsCrlf then CRLF else [], [text.(data := data)] + chunks;
      && Encode(needsCrlf, all, zero, trailers) + rest
         == crlf + ((text.digits + text.extension + CRLF) + (data + (Encode(true, chunks, zero, trailers) + rest)))
      && DataOf(all) == data + DataOf(chunks) && ChunksOk(all)
  {
    var c := text.(data := data);
    assert ([c] + chunks)[1..] == chunks;
    var tail := Encode(true, chunks, zero, trailers);
    var crlf := if needsCrlf then CRLF else [];
    assert Encode(needsCrlf, [c] + chunks, zero, trailers)
        == crlf + (c.digits + c.extension + CRLF + (c.data + tail));
    hide Encode, SizeTextOk;
  }

  /** What an accepted input begins with. */
  lemma AcceptedMeans(needsCrlf: bool, input: Bytes)
    requires Decode(needsCrlf, input).ok
    ensures
      var b, body := ReadBoundary(needsCrlf, input), Decode(needsCrlf, input);
      && b != Bad && (b.Last? ==> body.data == [] && body.rest == b.rest)
      && (b.Chunk? ==>
            && 0 < b.size <= |b.rest| < |input| && b.rest == b.rest[..b.size] + b.rest[b.size..]
            && Decode(true, b.rest[b.size..]).ok
            && body.data == b.rest[..b.size] + Decode(true, b.rest[b.size..]).data
            && body.rest == Decode(true, b.rest[b.size..]).rest)
  {
    hide ReadBoundary;
  }

  /** The converse of `DecodeEncode`: a body is accepted only if it is an encoding of the data it is decoded to. */
  lemma {:induction false} AcceptedIsEncoded(needsCrlf: bool, input: Bytes)
    returns (chunks: seq<ChunkText>, zero: ChunkText, trailers: seq<Bytes>)
    requires Decode(needsCrlf, input).ok
    ensures ChunksOk(chunks) && SizeTextOk(zero.digits, zero.extension, 0) && TrailersOk(trailers, MAX_METADATA)
    ensures input == Encode(needsCrlf, chunks, zero, trailers) + Decode(needsCrlf, input).rest
    ensures Decode(needsCrlf, input).data == DataOf(chunks)
    decreases |input|
  {
    hide *;
    AcceptedMeans(needsCrlf, input);
    var b, body := ReadBoundary(needsCrlf, input), Decode(needsCrlf, input);
    var from := AfterBoundary(needsCrlf, input);
    if b.Last? {
      zero, trailers := LastBoundary(from, b.rest);
      chunks := [];
      NoMoreChunks(needsCrlf, zero, trailers, body.rest);
    } else {
      var data, after := b.rest[..b.size], b.rest[b.size..];
      var text := ChunkBoundary(from, b.size, b.rest);
      chunks, zero, trailers := AcceptedIsEncoded(true, after);
      OneMoreChunk(needsCrlf, text, data, chunks, zero, trailers, body.rest);
      chunks := [text.(data := data)] + chunks;
    }
  }
}
