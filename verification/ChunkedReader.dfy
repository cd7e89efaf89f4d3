/** The chunked reader: any caller buffer, any pieces from the source. */
module ChunkedReading {
  import opened Prelude
  import opened Chunked

  /** A chunk of which `n` bytes are still due, and all that follows it. */
  function Payload(n: nat, input: Bytes): Body {
    if |input| < n then Body(input, false, []) else Prepend(input[..n], Decode(true, input[n..]))
  }

  class ChunkedReader {
    const inner: ByteSource
    var remaining: nat
    var needsCrlf: bool
    var finished: bool

    ghost predicate Valid()
      reads this
    {
      remaining > 0 ==> needsCrlf && !finished
    }

    /** What the decoder of a whole input makes of everything still to come. */
    ghost function Future(): Body
      reads this, inner
    {
      if finished then Body([], true, inner.rest)
      else if remaining > 0 then Payload(remaining, inner.rest)
      else Decode(needsCrlf, inner.rest)
    }

    constructor (inner: ByteSource)
      ensures Valid() && this.inner == inner && !finished && Future() == Decode(false, inner.rest)
    {
      this.inner := inner;
      remaining, needsCrlf, finished := 0, false, false;
    }

    method ReadExact(n: nat) returns (r: Result<Bytes>)
      modifies inner
      ensures inner.faults >= old(inner.faults) && (inner.mayFault || inner.faults == old(inner.faults))
      ensures r.Ok? ==> |r.value| == n && old(inner.rest) == r.value + inner.rest && inner.faults == old(inner.faults)
      ensures r.Err? ==> inner.faults > old(inner.faults) || old(|inner.rest|) < n
    {
      var taken: Bytes := [];
      ghost var all := inner.rest;
      while |taken| < n
        invariant |taken| <= n && taken + inner.rest == all && inner.faults == old(inner.faults)
      {
        var more := inner.Read(n - |taken|);
        if more.Err? {
          return more;
        }
        if more.value == [] {
          return Err(Io);
        }
        assert taken + (more.value + inner.rest) == (taken + more.value) + inner.rest;
        taken := taken + more.value;
      }
      return Ok(taken);
    }

    /** One CRLF-terminated line of at most `limit` bytes. */
    method Line(limit: nat) returns (r: Result<Bytes>)
      modifies inner
      ensures inner.faults >= old(inner.faults) && (inner.mayFault || inner.faults == old(inner.faults))
      ensures r.Ok? ==> TakeLine(old(inner.rest), limit) == r.ToOption() && inner.rest == old(inner.rest)[|r.value|..]
      ensures r.Ok? ==> inner.faults == old(inner.faults)
      ensures r.Err? ==> inner.faults > old(inner.faults) || TakeLine(old(inner.rest), limit) == None
    {
      var line: Bytes := [];
      ghost var all := inner.rest;
      var ended := false;
      while |line| < limit && !ended
        invariant |line| <= limit && line + inner.rest == all && inner.faults == old(inner.faults)
        invariant if ended then line != [] && line[|line| - 1] == LF && LF !in line[..|line| - 1] else LF !in line
        decreases limit - |line|, !ended
      {
        var more := inner.Read(1);
        if more.Err? {
          return more;
        }
        if more.value == [] {
          break;
        }
        assert line + (more.value + inner.rest) == (line + more.value) + inner.rest;
        line := line + more.value;
        assert line[..|line| - 1] + more.value == line;
        ended := more.value[0] == LF;
      }
      LineJudged(all, limit, line, inner.rest, ended);
      if |line| < 2 || line[|line| - 2..] != CRLF {
        return Err(Invalid);
      }
      return Ok(line);
    }

    /** The trailer section, on a budget that every line eats into. */
    method Trailers() returns (r: Result<()>)
      modifies inner
      ensures inner.faults >= old(inner.faults) && (inner.mayFault || inner.faults == old(inner.faults))
      ensures r.Ok? ==>
                SkipTrailers(old(inner.rest), MAX_METADATA) == Some(inner.rest) && inner.faults == old(inner.faults)
      ensures r.Err? ==> inner.faults > old(inner.faults) || SkipTrailers(old(inner.rest), MAX_METADATA) == None
    {
      var budget := MAX_METADATA;
      ghost var all := inner.rest;
      hide TakeLine;
      while true
        invariant 0 <= budget && inner.faults == old(inner.faults)
        invariant SkipTrailers(all, MAX_METADATA) == SkipTrailers(inner.rest, budget)
        decreases budget
      {
        hide TakeLine;
        ghost var before := inner.rest;
        var trailer := Line(budget);
        if trailer.Err? {
          return Err(trailer.error);
        }
        var line := trailer.value;
        budget := budget - |line|;
        if line == CRLF {
          return Ok(());
        }
        if COLON !in line[..|line| - 2] {
          return Err(Invalid);
        }
      }
    }

    /** Everything between two chunks; afterwards either the body has ended or a chunk is due. */
    method Boundary() returns (r: Result<()>)
      requires Valid() && remaining == 0 && !finished
      modifies this`remaining, this`needsCrlf, this`finished, inner
      ensures inner.faults >= old(inner.faults) && (inner.mayFault || inner.faults == old(inner.faults))
      ensures r.Ok? ==>
                Valid() && Future() == old(Future()) && (finished || remaining > 0) && inner.faults == old(inner.faults)
      ensures r.Ok? ==> |inner.rest| <= old(|inner.rest|)
      ensures r.Err? ==> inner.faults > old(inner.faults) || old(Future()) == BROKEN
    {
      hide TakeLine, ParseSize, SkipTrailers;
      ghost var all := inner.rest;
      if needsCrlf {
        var crlf := ReadExact(2);
        if crlf.Err? {
          return Err(crlf.error);
        }
        assert all[..2] == crlf.value && all[2..] == inner.rest;
        if crlf.value != CRLF {
          return Err(Invalid);
        }
      }
      ghost var from := inner.rest;
      var line := Line(MAX_METADATA);
      if line.Err? {
        return Err(line.error);
      }
      var size := ParseSize(line.value);
      if size.None? {
        return Err(Invalid);
      }
      SizeIs(from, line.value);
      remaining := size.value;
      if remaining == 0 {
        var skipped := Trailers();
        if skipped.Err? {
          return Err(skipped.error);
        }
        finished := true;
        return Ok(());
      }
      needsCrlf := true;
      return Ok(());
    }

    /** Some of the chunk that is due; the end of the source inside a chunk is an error. */
    method TakePayload(max: nat) returns (r: Result<Bytes>)
      requires Valid() && remaining > 0 && max > 0
      modifies this`remaining, inner
      ensures inner.faults >= old(inner.faults) && (inner.mayFault || inner.faults == old(inner.faults))
      ensures r.Ok? ==>
                && Valid() && 0 < |r.value| <= max && old(Future()) == Prepend(r.value, Future())
                && inner.faults == old(inner.faults)
      ensures r.Ok? ==> |inner.rest| + |r.value| <= old(|inner.rest|)
      ensures r.Err? ==> inner.faults > old(inner.faults) || !old(Future()).ok
    {
      ghost var all := inner.rest;
      r := inner.Read(Min(remaining, max));
      if r.Err? {
        return;
      }
      if r.value == [] {
        return Err(Io);
      }
      PayloadSplits(remaining, r.value, inner.rest);
      hide Decode, Payload, Prepend;
      remaining := remaining - |r.value|;
    }

    /** At most `max` bytes of the body; nothing, for a caller that has room, only at its proper end. */
    method Read(max: nat) returns (r: Result<Bytes>)
      requires Valid()
      modifies this`remaining, this`needsCrlf, this`finished, inner
      ensures inner.faults >= old(inner.faults) && (inner.mayFault || inner.faults == old(inner.faults))
      ensures r.Ok? ==>
                && Valid() && |r.value| <= max && old(Future()) == Prepend(r.value, Future())
                && inner.faults == old(inner.faults)
      ensures r.Ok? && r.value == [] && max > 0 ==> finished
      ensures r.Ok? ==> |inner.rest| + |r.value| <= old(|inner.rest|)
      ensures r.Err? ==> inner.faults > old(inner.faults) || !old(Future()).ok
    {
      NothingPrepended(Future());
      if max == 0 || finished {
        return Ok([]);
      }
      hide ChunkedReader.Future;
      if remaining == 0 {
        var boundary := Boundary();
        if boundary.Err? {
          return Err(boundary.error);
        }
        if finished {
          return Ok([]);
        }
      }
      r := TakePayload(max);
    }

    /** Reads until the end with buffers of any sizes: exactly the body, or an error where the decoder finds one. */
    method ReadToEnd() returns (r: Result<Bytes>)
      requires Valid()
      modifies this`remaining, this`needsCrlf, this`finished, inner
      ensures inner.faults >= old(inner.faults) && (inner.mayFault || inner.faults == old(inner.faults))
      ensures r.Ok? ==> old(Future()) == Body(r.value, true, inner.rest)
      ensures r.Err? ==> inner.faults > old(inner.faults) || !old(Future()).ok
    {
      var body: Bytes := [];
      hide Decode, Payload;
      ghost var all := Future();
      while true
        invariant Valid() && all == Prepend(body, Future()) && inner.faults == old(inner.faults)
        decreases |inner.rest|
      {
        hide ChunkedReader.Future;
        var room: int := *;
        room := if room > 0 then room else 1;
        var more := Read(room);
        if more.Err? {
          return Err(more.error);
        }
        if more.value == [] {
          FinishedFuture();
          return Ok(body);
        }
        assert body + (more.value + Future().data) == (body + more.value) + Future().data;
        body := body + more.value;
      }
    }

    lemma FinishedFuture()
      requires finished
      ensures Future() == Body([], true, inner.rest)
    {
    }
  }

  lemma NothingPrepended(body: Body)
    ensures Prepend([], body) == body
  {
    assert [] + body.data == body.data;
  }

  lemma PrependTwice(a: Bytes, b: Bytes, body: Body)
    ensures Prepend(a, Prepend(b, body)) == Prepend(a + b, body)
  {
    assert a + (b + body.data) == (a + b) + body.data;
  }

  lemma SplitAt(some: Bytes, rest: Bytes, n: nat)
    requires |some| <= n <= |some + rest|
    ensures (some + rest)[..n] == some + rest[..n - |some|] && (some + rest)[n..] == rest[n - |some|..]
  {
  }

  /** Taking some of a chunk leaves the rest of it due. */
  lemma PayloadSplits(n: nat, some: Bytes, rest: Bytes)
    requires 0 < |some| <= n
    ensures Payload(n, some + rest)
            == Prepend(some, if |some| == n then Decode(true, rest) else Payload(n - |some|, rest))
  {
    if |some + rest| >= n {
      SplitAt(some, rest, n);
      PrependTwice(some, rest[..n - |some|], Decode(true, rest[n - |some|..]));
      if |some| == n {
        assert rest[0..] == rest && some + rest[..0] == some;
      }
    }
    hide Decode, Prepend;
    if |some + rest| < n {
      PrependBroken(some, rest);
    }
  }

  lemma PrependBroken(some: Bytes, rest: Bytes)
    ensures Body(some + rest, false, []) == Prepend(some, Body(rest, false, []))
  {
  }

  /** What the loop gathered is the line, or there is none. */
  lemma LineJudged(all: Bytes, limit: nat, line: Bytes, rest: Bytes, ended: bool)
    requires line + rest == all && |line| <= limit
    requires if ended then line != [] && line[|line| - 1] == LF && LF !in line[..|line| - 1] else LF !in line
    requires ended || |line| == limit || rest == []
    ensures TakeLine(all, limit) == if |line| >= 2 && line[|line| - 2..] == CRLF then Some(line) else None
    ensures all[|line|..] == rest
  {
    if ended {
      var text := line[..|line| - 1];
      assert all == text + [LF] + rest;
      NewlineIsAt(text, rest, limit);
      assert all[..|line|] == line;
      if |line| >= 2 {
        assert all[|line| - 2] == line[|line| - 2] && line[|line| - 2..] == [line[|line| - 2], LF];
      }
    } else {
      assert forall i | 0 <= i < |line| :: all[i] == line[i] && line[i] != LF;
      assert |line| >= 2 ==> line[|line| - 2..][1] == line[|line| - 1];
    }
  }
}
