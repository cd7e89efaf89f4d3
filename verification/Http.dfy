/** The two response paths, buffered and streaming, against one reading of the response (RFC 9112, section 6.3). */
module Http {
  import opened Prelude
  import opened Sockets
  import opened Chunked
  import opened ChunkedReading
  import opened HttpHead

  const MAX_RESPONSE_HEADER := 8 * 1024
  const HEAD_CHUNK := 512
  const MAX_RESPONSE_BODY := 1024 * 1024

  datatype Reply = Reply(status: nat, body: Bytes)

  /** The body that a framing cuts out of what follows the head, if it is all there. */
  function BodyOf(framing: Framing, rest: Bytes): Option<Bytes> {
    match framing
    case Close => Some(rest)
    case Length(n) => if |rest| >= n then Some(rest[..n]) else None
    case Chunked => if Decode(false, rest).ok then Some(Decode(false, rest).data) else None
  }

  /** What a whole response means: the head up to the first blank line, then the body. */
  function Response(t: Text, wire: Bytes): Option<Reply> {
    var at := HeaderEnd(wire);
    if at.None? then None
    else
      var head := wire[..at.value];
      var status, framing := StatusCode(t, head), FramingOf(t, head);
      if status.None? || framing.None? then None
      else
        var body := BodyOf(framing.value, wire[at.value + 4..]);
        if body.None? then None else Some(Reply(status.value, body.value))
  }

  method ParseStatusCode(t: Text, head: Bytes) returns (r: Result<nat>)
    ensures r.ToOption() == StatusCode(t, head)
  {
    var code := StatusCode(t, head);
    return if code.Some? then Ok(code.value) else Err(Invalid);
  }

  /** The buffered parser: the whole response is at hand. */
  method ParseHttpResponse(t: Text, buf: Bytes) returns (r: Result<Reply>)
    requires |buf| <= USIZE_MAX
    ensures r.ToOption() == Response(t, buf)
  {
    hide StatusCode, FramingOf, HeaderEnd, Decode;
    var end := FindHeaderEnd(buf);
    if end.None? {
      return Err(Invalid);
    }
    var head, rest := buf[..end.value], buf[end.value + 4..];
    var status :- ParseStatusCode(t, head);
    var framing :- ParseBodyFraming(t, head);
    match framing {
      case Chunked =>
        var source := new ByteSource(rest, false);
        var reader := new ChunkedReader(source);
        var body :- reader.ReadToEnd();
        return Ok(Reply(status, body));
      case Length(n) =>
        if n > USIZE_MAX || |rest| < n {
          return Err(Invalid);
        }
        return Ok(Reply(status, rest[..n]));
      case Close =>
        return Ok(Reply(status, rest));
    }
  }

  /** Reads to the end of the stream, up to the size limit, then parses. */
  method DoRequest(t: Text, stream: ByteSource) returns (r: Result<Reply>)
    modifies stream
    ensures stream.faults >= old(stream.faults) && (stream.mayFault || stream.faults == old(stream.faults))
    ensures r.Ok? ==> Response(t, old(stream.rest)) == Some(r.value) && old(|stream.rest|) <= MAX_RESPONSE_BODY
    ensures r.Err? ==>
              stream.faults > old(stream.faults) || old(|stream.rest|) > MAX_RESPONSE_BODY
              || Response(t, old(stream.rest)) == None
  {
    hide Response;
    var buf: Bytes := [];
    ghost var all := stream.rest;
    while true
      invariant buf + stream.rest == all && |buf| <= MAX_RESPONSE_BODY && stream.faults == old(stream.faults)
      decreases |stream.rest|
    {
      var more := stream.Read(4096);
      if more.Err? {
        return Err(more.error);
      }
      if more.value == [] {
        break;
      }
      assert buf + (more.value + stream.rest) == (buf + more.value) + stream.rest;
      if |buf| + |more.value| > MAX_RESPONSE_BODY {
        return Err(Invalid);
      }
      buf := buf + more.value;
    }
    assert buf == all;
    r := ParseHttpResponse(t, buf);
  }

  /** Hands out exactly `remaining` bytes; an early end of the source is an error, never a short body. */
  class ExactLengthReader {
    const inner: ByteSource
    var remaining: nat

    constructor (inner: ByteSource, remaining: nat)
      ensures this.inner == inner && this.remaining == remaining
    {
      this.inner := inner;
      this.remaining := remaining;
    }

    method Read(max: nat) returns (r: Result<Bytes>)
      modifies this, inner
      ensures inner.faults >= old(inner.faults) && (inner.mayFault || inner.faults == old(inner.faults))
      ensures r.Ok? ==> |r.value| <= max && |r.value| <= old(remaining) && remaining == old(remaining) - |r.value|
      ensures r.Ok? ==> old(inner.rest) == r.value + inner.rest && inner.faults == old(inner.faults)
      ensures r.Ok? && r.value == [] && max > 0 ==> remaining == 0
      ensures r.Err? ==> inner.faults > old(inner.faults) || old(|inner.rest|) < old(remaining)
    {
      if max == 0 || remaining == 0 {
        return Ok([]);
      }
      r := inner.Read(Min(remaining, max));
      if r.Err? {
        return;
      }
      if r.value == [] {
        return Err(Io);
      }
      remaining := remaining - |r.value|;
    }
  }

  /** The streaming body, one reader per framing. */
  datatype BodyReader =
    | UntilClose(source: ByteSource)
    | Exactly(reader: ExactLengthReader)
    | InChunks(chunked: ChunkedReader)

  datatype Streaming = Streaming(status: nat, body: BodyReader)

  function SourceOf(body: BodyReader): ByteSource {
    match body
    case UntilClose(source) => source
    case Exactly(reader) => reader.inner
    case InChunks(chunked) => chunked.inner
  }

  ghost function Footprint(body: BodyReader): set<object> {
    match body
    case UntilClose(source) => {source}
    case Exactly(reader) => {reader, reader.inner}
    case InChunks(chunked) => {chunked, chunked.inner}
  }

  /** What draining a streaming body will give, if nothing fails. */
  ghost function Undrained(body: BodyReader): Option<Bytes>
    reads Footprint(body)
  {
    match body
    case UntilClose(source) => Some(source.rest)
    case Exactly(reader) => BodyOf(Length(reader.remaining), reader.inner.rest)
    case InChunks(chunked) => if chunked.Future().ok then Some(chunked.Future().data) else None
  }

  ghost predicate Usable(body: BodyReader)
    reads Footprint(body)
  {
    body.InChunks? ==> body.chunked.Valid()
  }

  /** The head does not end within the size limit. */
  predicate HeadTooLong(wire: Bytes) {
    HeaderEnd(wire).Some? && HeaderEnd(wire).value + 4 > MAX_RESPONSE_HEADER
  }

  lemma NoHeadYet(buf: Bytes, more: Bytes)
    requires HeaderEnd(buf) == None && |buf| > MAX_RESPONSE_HEADER
    ensures HeaderEnd(buf + more) == None || HeadTooLong(buf + more)
  {
    HeaderEndIsLater(buf, more);
    hide HeaderEnd;
  }

  lemma HeadComplete(buf: Bytes, rest: Bytes)
    requires HeaderEnd(buf).Some?
    ensures
      var at, all := HeaderEnd(buf).value, buf + rest;
      && HeaderEnd(all) == Some(at) && at + 4 <= |buf|
      && buf[..at + 4] == all[..at] + BLANK_LINE
      && buf[at + 4..] + rest == all[at + 4..]
  {
    HeaderEndStays(buf, rest);
    CutAt(buf, rest, HeaderEnd(buf).value);
    assert BlankAt(buf, HeaderEnd(buf).value);
    hide HeaderEnd;
  }

  lemma CutAt(buf: Bytes, rest: Bytes, at: nat)
    requires at + 4 <= |buf|
    ensures buf[..at + 4] == (buf + rest)[..at] + buf[at..at + 4]
    ensures (buf + rest)[at + 4..] == buf[at + 4..] + rest
  {
  }

  /** Splits what was read at the end of the head, and puts the rest back in front of the stream. */
  method PutBack(stream: ByteSource, buf: Bytes, at: nat) returns (head: Bytes)
    requires HeaderEnd(buf) == Some(at)
    modifies stream
    ensures
      var all := buf + old(stream.rest);
      && HeaderEnd(all) == Some(at) && at + 4 <= |all| && |head| <= |buf|
      && head == all[..at] + BLANK_LINE && stream.rest == all[at + 4..]
    ensures stream.faults == old(stream.faults)
  {
    hide *;
    HeadComplete(buf, stream.rest);
    stream.Unread(buf[at + 4..]);
    head := buf[..at + 4];
  }

  /** Reads until the head is complete; what was read beyond it is put back in front of the stream. */
  method ReadHead(stream: ByteSource) returns (r: Result<Bytes>)
    modifies stream
    ensures stream.faults >= old(stream.faults) && (stream.mayFault || stream.faults == old(stream.faults))
    ensures r.Ok? ==>
              && HeaderEnd(old(stream.rest)).Some?
              && r.value == old(stream.rest)[..HeaderEnd(old(stream.rest)).value] + BLANK_LINE
              && stream.rest == old(stream.rest)[HeaderEnd(old(stream.rest)).value + 4..]
              && |r.value| <= MAX_RESPONSE_HEADER + HEAD_CHUNK
    ensures r.Err? ==>
              stream.faults > old(stream.faults) || HeaderEnd(old(stream.rest)) == None || HeadTooLong(old(stream.rest))
  {
    var buf: Bytes := [];
    ghost var all := stream.rest;
    assert HeaderEnd(buf) == None && buf + all == all;
    hide *;
    while true
      invariant buf + stream.rest == all && HeaderEnd(buf) == None && stream.faults == old(stream.faults)
      invariant |buf| <= MAX_RESPONSE_HEADER
      decreases |stream.rest|
    {
      hide *;
      var more := ReadMore(stream, buf, HEAD_CHUNK);
      if more.Err? {
        return more;
      }
      buf := more.value;
      var end := FindHeaderEnd(buf);
      if end.Some? {
        var head := PutBack(stream, buf, end.value);
        return Ok(head);
      }
      if |buf| > MAX_RESPONSE_HEADER {
        NoHeadYet(buf, stream.rest);
        return Err(Invalid);
      }
    }
  }

  /** One more piece in the buffer; the end of the stream is an error. */
  method ReadMore(stream: ByteSource, buf: Bytes, max: nat) returns (r: Result<Bytes>)
    requires max > 0
    modifies stream
    ensures stream.faults >= old(stream.faults) && (stream.mayFault || stream.faults == old(stream.faults))
    ensures r.Ok? ==>
              && r.value + stream.rest == buf + old(stream.rest) && |stream.rest| < old(|stream.rest|)
              && stream.faults == old(stream.faults) && |r.value| <= |buf| + max
    ensures r.Err? ==> stream.faults > old(stream.faults) || buf + old(stream.rest) == buf
  {
    var more := stream.Read(max);
    if more.Err? {
      return more;
    }
    if more.value == [] {
      return Err(Io);
    }
    assert buf + (more.value + stream.rest) == (buf + more.value) + stream.rest;
    return Ok(buf + more.value);
  }

  /** The head is judged at once; the body is left to a reader that knows where it ends. */
  method DoStreamingRequest(t: Text, stream: ByteSource) returns (r: Result<Streaming>)
    requires t.Lawful()
    modifies stream
    ensures stream.faults >= old(stream.faults) && (stream.mayFault || stream.faults == old(stream.faults))
    ensures r.Ok? ==>
              Usable(r.value.body) && SourceOf(r.value.body) == stream && fresh(Footprint(r.value.body) - {stream})
    ensures r.Ok? ==> Response(t, old(stream.rest)) == ReplyOf(r.value.status, Undrained(r.value.body))
    ensures r.Ok? ==>
              && HeaderEnd(old(stream.rest)).Some?
              && HeaderEnd(old(stream.rest)).value + 4 <= MAX_RESPONSE_HEADER + HEAD_CHUNK
    ensures r.Err? ==>
              stream.faults > old(stream.faults) || Response(t, old(stream.rest)) == None
              || HeadTooLong(old(stream.rest))
  {
    hide HeaderEnd, StatusCode, FramingOf, Decode, Text.Lawful;
    ghost var all := stream.rest;
    var head :- ReadHead(stream);
    BlankLineIgnored(t, all[..HeaderEnd(all).value]);
    var status :- ParseStatusCode(t, head);
    var framing :- ParseBodyFraming(t, head);
    match framing {
      case Close =>
        return Ok(Streaming(status, UntilClose(stream)));
      case Length(n) =>
        var reader := new ExactLengthReader(stream, n);
        return Ok(Streaming(status, Exactly(reader)));
      case Chunked =>
        var chunked := new ChunkedReader(stream);
        return Ok(Streaming(status, InChunks(chunked)));
    }
  }

  function ReplyOf(status: nat, body: Option<Bytes>): Option<Reply> {
    if body.None? then None else Some(Reply(status, body.value))
  }

  method DrainUntilClose(source: ByteSource) returns (r: Result<Bytes>)
    modifies source
    ensures source.faults >= old(source.faults) && (source.mayFault || source.faults == old(source.faults))
    ensures r.Ok? ==> r.value == old(source.rest)
    ensures r.Err? ==> source.faults > old(source.faults)
  {
    var body: Bytes := [];
    ghost var all := source.rest;
    while true
      invariant body + source.rest == all && source.faults == old(source.faults)
      decreases |source.rest|
    {
      var room: int := *;
      var more := source.Read(if room > 0 then room else 1);
      if more.Err? {
        return more;
      }
      if more.value == [] {
        return Ok(body);
      }
      assert body + (more.value + source.rest) == (body + more.value) + source.rest;
      body := body + more.value;
    }
  }

  method DrainExactly(reader: ExactLengthReader) returns (r: Result<Bytes>)
    modifies reader, reader.inner
    ensures reader.inner.faults >= old(reader.inner.faults)
    ensures (reader.inner.mayFault || reader.inner.faults == old(reader.inner.faults))
    ensures r.Ok? ==> old(BodyOf(Length(reader.remaining), reader.inner.rest)) == Some(r.value)
    ensures r.Err? ==>
              reader.inner.faults > old(reader.inner.faults)
              || old(BodyOf(Length(reader.remaining), reader.inner.rest)) == None
  {
    var body: Bytes := [];
    ghost var all, due := reader.inner.rest, reader.remaining;
    while true
      invariant body + reader.inner.rest == all && |body| + reader.remaining == due
      invariant reader.inner.faults == old(reader.inner.faults)
      decreases reader.remaining
    {
      var room: int := *;
      var more := reader.Read(if room > 0 then room else 1);
      if more.Err? {
        return more;
      }
      if more.value == [] {
        assert all[..due] == body;
        return Ok(body);
      }
      assert body + (more.value + reader.inner.rest) == (body + more.value) + reader.inner.rest;
      body := body + more.value;
    }
  }

  /** Reads a streaming body to its end, with buffers of any sizes. */
  method Drain(body: BodyReader) returns (r: Result<Bytes>)
    requires Usable(body)
    modifies Footprint(body)
    ensures SourceOf(body).faults >= old(SourceOf(body).faults)
    ensures SourceOf(body).mayFault || SourceOf(body).faults == old(SourceOf(body).faults)
    ensures r.Ok? ==> old(Undrained(body)) == Some(r.value)
    ensures r.Err? ==> SourceOf(body).faults > old(SourceOf(body).faults) || old(Undrained(body)) == None
  {
    match body {
      case UntilClose(source) => r := DrainUntilClose(source);
      case Exactly(reader) => r := DrainExactly(reader);
      case InChunks(chunked) => r := chunked.ReadToEnd();
    }
  }

  /** Streams a response and drains its body. */
  method FetchStreaming(t: Text, stream: ByteSource) returns (r: Result<Reply>)
    requires t.Lawful()
    modifies stream
    ensures stream.mayFault || stream.faults == old(stream.faults)
    ensures r.Ok? ==> Response(t, old(stream.rest)) == Some(r.value)
    ensures r.Err? ==>
              stream.faults > old(stream.faults) || Response(t, old(stream.rest)) == None
              || HeadTooLong(old(stream.rest))
  {
    hide Response, Text.Lawful, HeadTooLong;
    var streaming :- DoStreamingRequest(t, stream);
    var body :- Drain(streaming.body);
    return Ok(Reply(streaming.status, body));
  }

  /**
   * The two paths mean the same. The same response, of at most 1 MiB with a head of at most 8 KiB, delivered to each in
   * whatever pieces, succeeds on both with the same status and body or on neither, as long as the medium does not fail.
   */
  method FetchBothWays(t: Text, one: ByteSource, other: ByteSource)
    returns (buffered: Result<Reply>, streamed: Result<Reply>)
    requires t.Lawful() && one != other && one.rest == other.rest
    requires |one.rest| <= MAX_RESPONSE_BODY && !HeadTooLong(one.rest)
    modifies one, other
    ensures one.faults == old(one.faults) && other.faults == old(other.faults) ==>
              buffered.ToOption() == streamed.ToOption() == Response(t, old(one.rest))
  {
    hide Response, Text.Lawful, HeadTooLong;
    buffered := DoRequest(t, one);
    streamed := FetchStreaming(t, other);
  }
}
