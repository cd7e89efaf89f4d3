/** The resumable WebSocket client: a reader that can stop at any byte, and the masking writer. */
module WebSocket {
  import opened Prelude
  import opened Sockets
  import opened WsCodec

  /**
   * The frame in progress: what its admitted header said, a payload of the declared size, and how much of it is real.
   */
  datatype Incoming = Incoming(fin: bool, opcode: nat, payload: Bytes, filled: nat)

  datatype ReadError = Protocol | Closed | Broken

  datatype Outcome<+T> = Done(value: T) | Blocked | Failed(error: ReadError)

  const MAX_HEADER := 10

  class WsClient {
    const stream: Socket
    const cfg: Config

    /** Bytes that came along with the handshake answer, and how many of them have been consumed. */
    const pending: Bytes
    var pendingPos: nat

    const header: array<byte>
    var headerLen: nat
    var incoming: Option<Incoming>
    var partial: Option<Partial>

    /** The header of the frame being filled. */
    ghost var head: Bytes

    /** Bytes not yet taken by the reader. */
    ghost function Unread(): Bytes
      reads this, stream
      requires pendingPos <= |pending|
    {
      pending[pendingPos..] + stream.wire
    }

    /** Bytes taken for the frame in progress. */
    ghost function InFlight(): Bytes
      reads this, header
      requires headerLen <= header.Length && (incoming.Some? ==> incoming.value.filled <= |incoming.value.payload|)
    {
      if incoming.Some? then head + incoming.value.payload[..incoming.value.filled] else header[..headerLen]
    }

    /** Payload bytes held in memory, counting those of the frame in progress that have yet to come. */
    ghost function Retained(): nat
      reads this
    {
      Held(partial) + if incoming.Some? then |incoming.value.payload| else 0
    }

    ghost predicate Sized()
      reads this
    {
      && header.Length == MAX_HEADER && headerLen <= MAX_HEADER && pendingPos <= |pending|
      && (incoming.Some? ==> incoming.value.filled <= |incoming.value.payload| <= USIZE_MAX && headerLen == 0)
    }

    ghost predicate Bounded()
      reads this
    {
      cfg.maxMessage < USIZE_MAX ==>
        Held(partial) <= cfg.maxMessage && Retained() <= Max(cfg.maxFrame, cfg.maxMessage + MAX_CONTROL_PAYLOAD)
    }

    ghost predicate Valid()
      reads this, header
    {
      && Sized() && Bounded()
      && if incoming.Some?
         then ParseHead(cfg, partial, head) == Head(incoming.value.fin, incoming.value.opcode, |incoming.value.payload|,
                                                    |head|)
         else ParseHead(cfg, partial, header[..headerLen]) == More
    }

    /** Everything from the start of the frame in progress. */
    ghost function Rest(): Bytes
      reads this, header, stream
      requires Sized()
    {
      InFlight() + Unread()
    }

    /** What the one-shot parser makes of it. */
    ghost function Future(): Parsed
      reads this, header, stream
      requires Sized()
    {
      Parse(cfg, partial, Rest())
    }

    constructor (stream: Socket, cfg: Config, pending: Bytes)
      ensures Valid() && this.stream == stream && this.cfg == cfg && fresh(header)
      ensures Rest() == pending + stream.wire && partial == None && incoming == None
    {
      this.stream := stream;
      this.cfg := cfg;
      this.pending := pending;
      pendingPos := 0;
      header := new byte[MAX_HEADER];
      headerLen := 0;
      incoming := None;
      partial := None;
    }

    /**
     * Takes from the front of what is unread, whichever side of the upgrade it came on; the end only when all is
     * taken.
     */
    method Fill(max: nat) returns (r: ReadResult)
      requires max > 0 && pendingPos <= |pending|
      modifies this`pendingPos, stream`wire, stream`blocks, stream`readFaults
      ensures pendingPos <= |pending|
      ensures r.Data? ==> 0 < |r.bytes| <= max && old(Unread()) == r.bytes + Unread()
      ensures !r.Data? ==> Unread() == old(Unread())
      ensures r.Eof? ==> Unread() == []
      ensures stream.blocks == old(stream.blocks) + (if r.WouldBlock? then 1 else 0)
      ensures stream.readFaults == old(stream.readFaults) + (if r.Fault? then 1 else 0)
    {
      var left := pending[pendingPos..];
      if left != [] {
        var n := Min(|left|, max);
        pendingPos := pendingPos + n;
        return Data(left[..n]);
      }
      r := stream.Read(max);
    }

    /** Header bytes up to `total`; what has come is kept when the stream stops short. */
    method FillHeader(total: nat) returns (r: Outcome<()>)
      requires Sized() && incoming.None? && headerLen <= total <= MAX_HEADER
      modifies this`pendingPos, this`headerLen, header, stream`wire, stream`blocks, stream`readFaults
      ensures Sized() && old(headerLen) <= headerLen <= total && (r.Done? <==> headerLen == total)
      ensures header[..headerLen] + Unread() == old(header[..headerLen] + Unread())
      ensures header[..old(headerLen)] == old(header[..headerLen])
      ensures r.Failed? ==> r.error != Protocol && (r.error == Closed ==> Unread() == [])
      ensures stream.blocks == old(stream.blocks) + (if r.Blocked? then 1 else 0)
      ensures stream.readFaults == old(stream.readFaults) + (if r == Failed(Broken) then 1 else 0)
    {
      ghost var start, all := header[..headerLen], header[..headerLen] + Unread();
      while headerLen < total
        invariant Sized() && old(headerLen) <= headerLen <= total
        invariant header[..headerLen] + Unread() == all
        invariant header[..old(headerLen)] == start
        invariant stream.blocks == old(stream.blocks) && stream.readFaults == old(stream.readFaults)
      {
        ghost var before, unread := header[..headerLen], Unread();
        var got := Fill(total - headerLen);
        if !got.Data? {
          return if got.WouldBlock? then Blocked else Failed(if got.Eof? then Closed else Broken);
        }
        Append(got.bytes);
        Associative(before, got.bytes, Unread());
        assert header[..old(headerLen)] == (before + got.bytes)[..old(headerLen)] == before[..old(headerLen)];
      }
      return Done(());
    }

    method Append(bytes: Bytes)
      requires headerLen + |bytes| <= header.Length
      modifies this`headerLen, header
      ensures headerLen == old(headerLen) + |bytes|
      ensures header[..headerLen] == old(header[..headerLen]) + bytes
    {
      forall i | 0 <= i < |bytes| {
        header[headerLen + i] := bytes[i];
      }
      headerLen := headerLen + |bytes|;
    }

    /** The bytes of a whole header; the first two say how many there are, and are judged before more is awaited. */
    method TakeHeader() returns (r: Outcome<Bytes>)
      requires Valid() && incoming.None?
      modifies this`pendingPos, this`headerLen, header, stream`wire, stream`blocks, stream`readFaults
      ensures Sized() && Bounded()
      ensures match r
        case Done(bytes) =>
          && headerLen == 0 && |bytes| >= 2 && HeadStartOk(bytes[0], bytes[1]) && |bytes| == HeadSize(bytes[1])
          && old(Rest()) == bytes + Unread()
        case Blocked => Valid() && Rest() == old(Rest())
        case Failed(Protocol) => ParseHead(cfg, partial, old(Rest())) == Refused
        case Failed(error) => Valid() && Rest() == old(Rest()) && (error == Closed ==> Unread() == [])
      ensures stream.blocks == old(stream.blocks) + (if r.Blocked? then 1 else 0)
      ensures stream.readFaults == old(stream.readFaults) + (if r == Failed(Broken) then 1 else 0)
    {
      hide Admits, DeclaredLen;
      if headerLen < 2 {
        var start := FillHeader(2);
        if !start.Done? {
          return if start.Blocked? then Blocked else Failed(start.error);
        }
      }
      assert header[..headerLen][0] == header[0] && header[..headerLen][1] == header[1];
      if !HeadStartOk(header[0], header[1]) {
        HeadIsLocal(cfg, partial, header[..headerLen], Unread());
        return Failed(Protocol);
      }
      var total := HeadSize(header[1]);
      ghost var seen := header[..headerLen];
      var rest := FillHeader(total);
      assert header[0] == seen[0] && header[1] == seen[1] by {
        assert header[..|seen|] == seen;
      }
      if !rest.Done? {
        return if rest.Blocked? then Blocked else Failed(rest.error);
      }
      headerLen := 0;
      return Done(header[..total]);
    }

    /** A whole header, accumulated and parsed; nothing is allocated before it has been admitted. */
    method ReadHeader() returns (r: Outcome<Incoming>)
      requires Valid() && incoming.None?
      modifies this`pendingPos, this`headerLen, this`head, header, stream`wire, stream`blocks, stream`readFaults
      ensures Sized() && Bounded()
      ensures match r
        case Done(inc) =>
          && headerLen == 0 && inc.filled == 0 && |inc.payload| <= USIZE_MAX && old(Rest()) == head + Unread()
          && ParseHead(cfg, partial, head) == Head(inc.fin, inc.opcode, |inc.payload|, |head|)
        case Blocked => Valid() && Rest() == old(Rest())
        case Failed(Protocol) => ParseHead(cfg, partial, old(Rest())) == Refused
        case Failed(error) => Valid() && Rest() == old(Rest()) && (error == Closed ==> Unread() == [])
      ensures stream.blocks == old(stream.blocks) + (if r.Blocked? then 1 else 0)
      ensures stream.readFaults == old(stream.readFaults) + (if r == Failed(Broken) then 1 else 0)
    {
      hide Admits, DeclaredLen, Parse;
      var taken := TakeHeader();
      if !taken.Done? {
        return if taken.Blocked? then Blocked else Failed(taken.error);
      }
      var bytes := taken.value;
      head := bytes;
      assert bytes[..HeadSize(bytes[1])] == bytes;
      HeadIsLocal(cfg, partial, bytes, Unread());
      var len := DeclaredLen(bytes);
      if len > USIZE_MAX {
        return Failed(Protocol);
      }
      var fin, opcode := bytes[0] >= 128, bytes[0] as int % 16;
      if !Admits(cfg, partial, fin, opcode, len) {
        return Failed(Protocol);
      }
      return Done(Incoming(fin, opcode, seq(len, _ => 0), 0));
    }

    /** Payload bytes until the frame is full; what has come is kept when the stream stops short. */
    method FillPayload() returns (r: Outcome<()>)
      requires Valid() && incoming.Some?
      modifies this`pendingPos, this`incoming, stream`wire, stream`blocks, stream`readFaults
      ensures Valid() && Rest() == old(Rest()) && incoming.Some?
      ensures incoming.value.fin == old(incoming.value.fin) && incoming.value.opcode == old(incoming.value.opcode)
      ensures |incoming.value.payload| == old(|incoming.value.payload|)
      ensures r.Done? <==> incoming.value.filled == |incoming.value.payload|
      ensures r.Failed? ==> r.error != Protocol && (r.error == Closed ==> Unread() == [])
      ensures stream.blocks == old(stream.blocks) + (if r.Blocked? then 1 else 0)
      ensures stream.readFaults == old(stream.readFaults) + (if r == Failed(Broken) then 1 else 0)
    {
      hide ParseHead;
      while incoming.value.filled < |incoming.value.payload|
        invariant Sized() && incoming.Some? && Rest() == old(Rest())
        invariant incoming.value.fin == old(incoming.value.fin) && incoming.value.opcode == old(incoming.value.opcode)
        invariant |incoming.value.payload| == old(|incoming.value.payload|)
        invariant stream.blocks == old(stream.blocks) && stream.readFaults == old(stream.readFaults)
        decreases |incoming.value.payload| - incoming.value.filled
      {
        hide ParseHead, WsClient.Bounded;
        var got := Fill(|incoming.value.payload| - incoming.value.filled);
        if !got.Data? {
          return if got.WouldBlock? then Blocked else Failed(if got.Eof? then Closed else Broken);
        }
        PutBytes(got.bytes);
      }
      return Done(());
    }

    /** Bytes just taken go behind those already in the payload. */
    method PutBytes(bytes: Bytes)
      requires Sized() && incoming.Some? && incoming.value.filled + |bytes| <= |incoming.value.payload|
      modifies this`incoming
      ensures Sized() && incoming.Some? && incoming.value.filled == old(incoming.value.filled) + |bytes|
      ensures incoming.value.fin == old(incoming.value.fin) && incoming.value.opcode == old(incoming.value.opcode)
      ensures |incoming.value.payload| == old(|incoming.value.payload|)
      ensures Rest() == old(InFlight()) + (bytes + Unread())
    {
      ghost var before := InFlight();
      var inc := incoming.value;
      var filled := inc.filled + |bytes|;
      var payload := inc.payload[..inc.filled] + bytes + inc.payload[filled..];
      incoming := Some(inc.(payload := payload, filled := filled));
      assert payload[..filled] == inc.payload[..inc.filled] + bytes;
      Associative(head, inc.payload[..inc.filled], bytes);
      Associative(before, bytes, Unread());
    }

    /** Has the effect that the parser gives to a full frame: a delivery, a longer partial message, or an error. */
    method Deliver() returns (r: Outcome<Option<Frame>>)
      requires Valid() && incoming.Some? && incoming.value.filled == |incoming.value.payload|
      modifies this`incoming, this`partial
      ensures Sized() && incoming == None && headerLen == old(headerLen)
      ensures
        var inc := old(incoming.value);
        var effect := Dispatch(cfg, old(partial), inc.fin, inc.opcode, inc.payload);
        if effect.Violation? then r == Failed(Protocol)
        else r == Done(effect.frame) && partial == effect.partial && Valid()
    {
      var inc := incoming.value;
      assert Admits(cfg, partial, inc.fin, inc.opcode, |inc.payload|);
      if cfg.maxMessage < USIZE_MAX {
        AdmittedIsBounded(cfg, partial, inc.fin, inc.opcode, |inc.payload|);
      }
      incoming := None;
      if inc.opcode == OP_PING {
        return Done(Some(Ping(inc.payload)));
      } else if inc.opcode == OP_PONG {
        return Done(Some(Pong(inc.payload)));
      } else if inc.opcode == OP_CLOSE {
        var info := ParseClose(cfg, inc.payload);
        return if info.Some? then Done(Some(Close(info.value))) else Failed(Protocol);
      } else if inc.opcode == OP_CONTINUATION {
        if partial.None? {
          return Failed(Protocol);
        }
        var message := partial.value;
        var whole := message.buf + inc.payload;
        if inc.fin {
          partial := None;
          return Done(Some(Message(message.opcode, whole)));
        }
        partial := Some(Partial(message.opcode, whole));
        return Done(None);
      } else if inc.fin {
        return Done(Some(Message(inc.opcode, inc.payload)));
      }
      partial := Some(Partial(inc.opcode, inc.payload));
      return Done(None);
    }

    /** `BeginFrame` leaves a frame in progress, and the stream as the parser sees it unchanged. */
    method BeginFrame() returns (r: Outcome<()>)
      requires Valid()
      modifies this`pendingPos, this`headerLen, this`head, this`incoming, header, stream`wire, stream`blocks,
               stream`readFaults
      ensures Sized()
      ensures r.Done? ==> Valid() && incoming.Some? && Rest() == old(Rest())
      ensures r.Blocked? ==> Valid() && Rest() == old(Rest())
      ensures r.Failed? && r.error == Protocol ==> old(Future()) == Parsed([], true)
      ensures r.Failed? && r.error != Protocol ==> Valid() && Rest() == old(Rest())
      ensures r.Failed? && r.error == Closed ==> old(Future()) == Parsed([], false)
      ensures stream.blocks == old(stream.blocks) + (if r.Blocked? then 1 else 0)
      ensures stream.readFaults == old(stream.readFaults) + (if r == Failed(Broken) then 1 else 0)
    {
      hide ParseHead, Parse, Admits;
      if incoming.Some? {
        return Done(());
      }
      HeadOutcome(cfg, partial, Rest());
      var next := ReadHeader();
      if next.Done? {
        HeadAdmits(cfg, partial, head);
        if cfg.maxMessage < USIZE_MAX {
          AdmittedIsBounded(cfg, partial, next.value.fin, next.value.opcode, |next.value.payload|);
        }
        incoming := Some(next.value);
        assert next.value.payload[..0] == [];
        return Done(());
      }
      if next.Failed? && next.error == Closed {
        assert Rest() == header[..headerLen];
      }
      return if next.Blocked? then Blocked else Failed(next.error);
    }

    lemma CutShort()
      requires Valid() && incoming.Some? && incoming.value.filled < |incoming.value.payload| && Unread() == []
      ensures Future() == Parsed([], false)
    {
      CutFrame(cfg, partial, incoming.value, head);
      assert Rest() == head + incoming.value.payload[..incoming.value.filled];
    }

    /** Delivers the full frame: the parser takes just that from the stream. */
    method Finish() returns (r: Outcome<Option<Frame>>)
      requires Valid() && incoming.Some? && incoming.value.filled == |incoming.value.payload|
      modifies this`incoming, this`partial
      ensures Sized() && !r.Blocked?
      ensures r.Done? ==> Valid() && |Rest()| < old(|Rest()|) && old(Future()) == Prepend(r.value, Future())
      ensures r.Failed? ==> r.error == Protocol && old(Future()) == Parsed([], true)
    {
      hide ParseHead, Dispatch, Parse, WsClient.Bounded;
      WholeFrame(cfg, partial, incoming.value, head, Unread());
      assert incoming.value.payload[..incoming.value.filled] == incoming.value.payload;
      HeadIsLong(cfg, partial, head);
      r := Deliver();
      assert r.Done? ==> Rest() == Unread();
    }

    /**
     * The next frame or message. Whatever pieces the stream comes in, what is returned is what the one-shot parser
     * finds next, and a call that stops short loses, repeats and re-reads nothing.
     */
    method ReadFrame() returns (r: Outcome<Frame>)
      requires Valid()
      modifies this`pendingPos, this`headerLen, this`head, this`incoming, this`partial, header, stream`wire,
               stream`blocks, stream`readFaults
      ensures Sized()
      ensures r.Done? ==> Valid() && old(Future()) == Prepend(Some(r.value), Future())
      ensures r.Blocked? ==> Valid() && Future() == old(Future())
      ensures r.Failed? && r.error == Protocol ==> old(Future()) == Parsed([], true)
      ensures r.Failed? && r.error == Closed ==> Valid() && old(Future()) == Parsed([], false)
      ensures r.Failed? && r.error == Broken ==> Valid() && Future() == old(Future())
      ensures stream.blocks == old(stream.blocks) + (if r.Blocked? then 1 else 0)
      ensures stream.readFaults == old(stream.readFaults) + (if r == Failed(Broken) then 1 else 0)
    {
      while true
        invariant Valid() && Future() == old(Future())
        invariant stream.blocks == old(stream.blocks) && stream.readFaults == old(stream.readFaults)
        decreases |Rest()|
      {
        hide ParseHead, Dispatch, Parse, WsClient.Bounded, WsClient.Valid, WsClient.InFlight;
        var begun := BeginFrame();
        if !begun.Done? {
          return if begun.Blocked? then Blocked else Failed(begun.error);
        }
        var filled := FillPayload();
        if !filled.Done? {
          if filled.Failed? && filled.error == Closed {
            CutShort();
          }
          return if filled.Blocked? then Blocked else Failed(filled.error);
        }
        var delivered := Finish();
        if delivered.Failed? {
          return Failed(delivered.error);
        }
        if delivered.value.Some? {
          return Done(delivered.value.value);
        }
      }
    }

    /**
     * Repeated calls, as a poll loop makes them: the frames returned, then the outcome of the last call, are those of
     * the one-shot parse of everything that was and will be sent. Only a wait or a fault of the stream spends a call in
     * vain: enough calls reach the end of the parse.
     */
    method ReadAll(calls: nat) returns (frames: seq<Frame>, ended: Option<ReadError>)
      requires Valid()
      modifies this`pendingPos, this`headerLen, this`head, this`incoming, this`partial, header, stream`wire,
               stream`blocks, stream`readFaults
      ensures Sized()
      ensures ended == Some(Protocol) ==> old(Future()) == Parsed(frames, true)
      ensures ended == Some(Closed) ==> old(Future()) == Parsed(frames, false)
      ensures ended == None || ended == Some(Broken) ==>
                Valid() && old(Future()) == Parsed(frames + Future().frames, Future().failed)
      ensures stream.blocks >= old(stream.blocks)
      ensures stream.readFaults == old(stream.readFaults) + (if ended == Some(Broken) then 1 else 0)
      ensures calls > old(|Future().frames|) + (stream.blocks - old(stream.blocks)) ==> ended.Some?
    {
      frames := [];
      ended := None;
      ghost var all := Future();
      for i := 0 to calls
        invariant Valid() && all == Parsed(frames + Future().frames, Future().failed)
        invariant stream.blocks >= old(stream.blocks) && i == |frames| + (stream.blocks - old(stream.blocks))
        invariant stream.readFaults == old(stream.readFaults)
      {
        hide Parse, WsClient.Valid;
        ghost var before := Future();
        var r := ReadFrame();
        if r.Failed? {
          ended := Some(r.error);
          return;
        }
        if r.Done? {
          Associative(frames, [r.value], Future().frames);
          frames := frames + [r.value];
        }
      }
    }

    /** One frame from this side: final, masked, with the shortest length form; the payload goes out in blocks. */
    method SendFrame(opcode: nat, payload: Bytes) returns (r: Result<()>, ghost mask: Mask)
      requires opcode < 16 && |payload| <= USIZE_MAX
      modifies stream`sent, stream`writeFaults
      ensures opcode >= OP_CLOSE && |payload| > MAX_CONTROL_PAYLOAD ==>
                r == Err(Invalid) && stream.sent == old(stream.sent)
      ensures r.Ok? ==>
                && stream.sent == old(stream.sent) + ClientFrame(opcode, payload, mask)
                && stream.writeFaults == old(stream.writeFaults)
      ensures r == Err(Io) ==> stream.writeFaults > old(stream.writeFaults)
      ensures r == Err(Io) ==> old(stream.sent) <= stream.sent <= old(stream.sent) + ClientFrame(opcode, payload, mask)
      ensures r.Err? ==> r == Err(Io) || (opcode >= OP_CLOSE && |payload| > MAX_CONTROL_PAYLOAD)
    {
      if opcode >= OP_CLOSE && |payload| > MAX_CONTROL_PAYLOAD {
        return Err(Invalid), (0, 0, 0, 0);
      }
      var random: Mask := *;
      mask := random;
      r := WriteFrame(opcode, payload, random);
    }

    /** The header, then the payload in masked blocks of 256 bytes. */
    method WriteFrame(opcode: nat, payload: Bytes, mask: Mask) returns (r: Result<()>)
      requires opcode < 16 && |payload| <= USIZE_MAX
      modifies stream`sent, stream`writeFaults
      ensures r.Ok? ==>
                && stream.sent == old(stream.sent) + ClientFrame(opcode, payload, mask)
                && stream.writeFaults == old(stream.writeFaults)
      ensures r.Err? ==>
                r == Err(Io) && old(stream.sent) <= stream.sent <= old(stream.sent) + ClientFrame(opcode, payload, mask)
      ensures r.Err? ==> stream.writeFaults > old(stream.writeFaults)
    {
      var first: byte := 128 + opcode;
      var head: Bytes := [first] + LengthBytes(|payload|, true) + [mask.0, mask.1, mask.2, mask.3];
      ghost var start, masked := stream.sent, Masked(payload, mask);
      assert ClientFrame(opcode, payload, mask) == head + masked;
      hide *;
      MaskedLength(payload, mask);
      r := stream.WriteAll(head);
      if r.Err? {
        CutIsPrefix(start, head, masked, 0, stream.sent);
        return;
      }
      var base := 0;
      while base < |payload|
        invariant base <= |payload| == |masked|
        invariant stream.sent == start + head + masked[..base] && stream.writeFaults == old(stream.writeFaults)
      {
        hide *;
        var n := Min(MASK_CHUNK, |payload| - base);
        BlockSize(|payload| - base);
        var chunk := MaskBlock(payload, mask, base, n);
        MaskedBlock(payload, mask, base, n);
        Associative(start + head, masked[..base], chunk);
        r := stream.WriteAll(chunk);
        if r.Err? {
          CutIsPrefix(start, head, masked, base + n, stream.sent);
          return;
        }
        base := base + n;
      }
      assert masked[..base] == masked;
      CutIsPrefix(start, head, masked, base, stream.sent);
      r := stream.Flush();
    }
  }

  lemma BlockSize(left: nat)
    requires left > 0
    ensures 0 < Min(MASK_CHUNK, left) <= left
  {
  }

  function MaskBlock(payload: Bytes, mask: Mask, base: nat, n: nat): Bytes
    requires base + n <= |payload|
  {
    seq<byte>(n, j requires 0 <= j < n => Xor(payload[base + j], MaskByte(mask, base + j)))
  }

  lemma MaskedLength(payload: Bytes, mask: Mask)
    ensures |Masked(payload, mask)| == |payload|
  {
  }

  lemma MaskedBlock(payload: Bytes, mask: Mask, base: nat, n: nat)
    requires base + n <= |payload|
    ensures |Masked(payload, mask)| == |payload|
    ensures Masked(payload, mask)[..base + n] == Masked(payload, mask)[..base] + MaskBlock(payload, mask, base, n)
  {
    hide Xor;
  }

  /** What was written when a frame was cut short is a prefix of it. */
  lemma CutIsPrefix(start: Bytes, head: Bytes, masked: Bytes, n: nat, sent: Bytes)
    requires n <= |masked| && start <= sent
    requires sent <= start + head + masked[..n]
    ensures sent <= start + (head + masked)
    ensures n == |masked| ==> start + head + masked[..n] == start + (head + masked)
  {
    assert start + head + masked == start + (head + masked);
    assert start + head + masked[..n] <= start + head + masked;
  }

  const MASK_CHUNK := 256

  type Mask = (byte, byte, byte, byte)

  /** Exclusive or of the lowest `n` bits. */
  function XorBits(a: nat, b: nat, n: nat): nat {
    if n == 0 then 0 else 2 * XorBits(a / 2, b / 2, n - 1) + (a + b) % 2
  }

  function Pow2(n: nat): nat {
    if n == 0 then 1 else 2 * Pow2(n - 1)
  }

  lemma {:induction false} XorBitsTwice(a: nat, b: nat, n: nat)
    requires a < Pow2(n)
    ensures XorBits(a, b, n) < Pow2(n) && XorBits(XorBits(a, b, n), b, n) == a
  {
    if n > 0 {
      var q, r := XorBits(a / 2, b / 2, n - 1), (a + b) % 2;
      XorBitsTwice(a / 2, b / 2, n - 1);
      Halved(q, r);
      Parity(a, b, q);
      assert XorBits(a, b, n) == 2 * q + r;
      assert XorBits(2 * q + r, b, n) == 2 * XorBits((2 * q + r) / 2, b / 2, n - 1) + (2 * q + r + b) % 2;
    }
  }

  lemma Halved(q: nat, r: nat)
    requires r < 2
    ensures (2 * q + r) / 2 == q
  {
  }

  lemma Parity(a: nat, b: nat, q: nat)
    ensures (2 * q + (a + b) % 2 + b) % 2 == a % 2
  {
    var k := (a + b) / 2;
    assert a + b == 2 * k + (a + b) % 2;
    assert 2 * q + (a + b) % 2 + b == a + 2 * (q + b - k);
  }

  lemma ByteIsEightBits()
    ensures Pow2(8) == 256
  {
    assert Pow2(4) == 2 * (2 * (2 * (2 * Pow2(0))));
    assert Pow2(8) == 2 * (2 * (2 * (2 * Pow2(4))));
  }

  function Xor(a: byte, b: byte): byte {
    ByteIsEightBits();
    XorBitsTwice(a, b, 8);
    XorBits(a, b, 8)
  }

  lemma XorTwice(a: byte, b: byte)
    ensures Xor(Xor(a, b), b) == a
  {
    ByteIsEightBits();
    XorBitsTwice(a, b, 8);
    hide XorBits, Pow2;
  }

  function MaskByte(mask: Mask, i: nat): byte {
    if i % 4 == 0 then mask.0 else if i % 4 == 1 then mask.1 else if i % 4 == 2 then mask.2 else mask.3
  }

  function Masked(payload: Bytes, mask: Mask): Bytes {
    seq<byte>(|payload|, i requires 0 <= i < |payload| => Xor(payload[i], MaskByte(mask, i)))
  }

  lemma UnmaskMasked(payload: Bytes, mask: Mask)
    ensures |Masked(payload, mask)| == |payload| && Masked(Masked(payload, mask), mask) == payload
  {
    hide Xor;
    forall i | 0 <= i < |payload| ensures Masked(Masked(payload, mask), mask)[i] == payload[i] {
      XorTwice(payload[i], MaskByte(mask, i));
    }
  }

  /** The bytes of a frame from the client. */
  function ClientFrame(opcode: nat, payload: Bytes, mask: Mask): Bytes
    requires opcode < 16 && |payload| <= USIZE_MAX
  {
    [128 + opcode] + LengthBytes(|payload|, true) + [mask.0, mask.1, mask.2, mask.3] + Masked(payload, mask)
  }

  datatype Unmasked = Unmasked(fin: bool, opcode: nat, payload: Bytes, used: nat)

  /** How a server reads a client frame (sections 5.2 and 5.3 of RFC 6455). */
  function ServerRead(wire: Bytes): (u: Option<Unmasked>)
    ensures u.Some? ==> 2 <= u.value.used <= |wire|
  {
    if |wire| < 2 || wire[1] < 128 then None
    else
      var size := HeadSize(wire[1]);
      if |wire| < size + 4 then None
      else
        var len := DeclaredLen(wire[..size]);
        if |wire| < size + 4 + len then None
        else
          var mask := (wire[size], wire[size + 1], wire[size + 2], wire[size + 3]);
          Some(Unmasked(wire[0] >= 128, wire[0] as int % 16, Masked(wire[size + 4..size + 4 + len], mask),
                        size + 4 + len))
  }

  /** Outbound round trip: a server reads FIN, the opcode and the exact payload, and the length form is the shortest. */
  lemma ClientFrameRoundTrip(opcode: nat, payload: Bytes, mask: Mask, rest: Bytes)
    requires opcode < 16 && |payload| <= USIZE_MAX
    ensures
      var wire := ClientFrame(opcode, payload, mask);
      && ServerRead(wire + rest) == Some(Unmasked(true, opcode, payload, |wire|))
      && |wire| == |payload| + 4 + (if |payload| <= 125 then 2 else if |payload| <= 65535 then 4 else 10)
  {
    LengthBytesParse(128 + opcode, |payload|, true);
    UnmaskMasked(payload, mask);
    hide Masked, LengthBytes, DeclaredLen, HeadSize;
    var head := [128 + opcode] + LengthBytes(|payload|, true);
    var wire, masked := ClientFrame(opcode, payload, mask), Masked(payload, mask);
    var maskBytes := [mask.0, mask.1, mask.2, mask.3];
    assert |maskBytes| == 4 && |masked| == |payload| && wire == head + maskBytes + masked;
    FourParts(head, maskBytes, masked, rest);
  }

  lemma FourParts(head: Bytes, maskBytes: Bytes, masked: Bytes, rest: Bytes)
    ensures
      var all := head + maskBytes + masked + rest;
      && all[..|head|] == head
      && all[|head|..|head| + |maskBytes|] == maskBytes
      && all[|head| + |maskBytes|..|head| + |maskBytes| + |masked|] == masked
      && forall i :: 0 <= i < |head| ==> all[i] == head[i]
  {
  }

  lemma HeadOutcome(cfg: Config, partial: Option<Partial>, rest: Bytes)
    ensures ParseHead(cfg, partial, rest) == Refused ==> Parse(cfg, partial, rest) == Parsed([], true)
    ensures ParseHead(cfg, partial, rest) == More ==> Parse(cfg, partial, rest) == Parsed([], false)
  {
    hide ParseHead;
  }

  lemma HeadAdmits(cfg: Config, partial: Option<Partial>, head: Bytes)
    ensures
      var h := ParseHead(cfg, partial, head);
      h.Head? ==> Admits(cfg, partial, h.fin, h.opcode, h.len)
  {
  }

  lemma HeadIsLong(cfg: Config, partial: Option<Partial>, head: Bytes)
    requires ParseHead(cfg, partial, head).Head?
    ensures |head| >= 2
  {
  }

  /** A frame whose header and payload have all been taken is the next frame of the stream. */
  lemma WholeFrame(cfg: Config, partial: Option<Partial>, inc: Incoming, head: Bytes, unread: Bytes)
    requires |inc.payload| <= USIZE_MAX
    requires ParseHead(cfg, partial, head) == Head(inc.fin, inc.opcode, |inc.payload|, |head|)
    ensures
      var effect := Dispatch(cfg, partial, inc.fin, inc.opcode, inc.payload);
      Parse(cfg, partial, head + inc.payload + unread)
      == if effect.Violation? then Parsed([], true) else Prepend(effect.frame, Parse(cfg, effect.partial, unread))
  {
    var all := head + inc.payload + unread;
    Associative(head, inc.payload, unread);
    HeadIsLocal(cfg, partial, head, inc.payload + unread);
    hide ParseHead, Dispatch;
    assert all[|head|..|head| + |inc.payload|] == inc.payload;
    assert all[|head| + |inc.payload|..] == unread;
  }

  /** A stream that ends inside a frame holds nothing more. */
  lemma CutFrame(cfg: Config, partial: Option<Partial>, inc: Incoming, head: Bytes)
    requires |inc.payload| <= USIZE_MAX && inc.filled < |inc.payload|
    requires ParseHead(cfg, partial, head) == Head(inc.fin, inc.opcode, |inc.payload|, |head|)
    ensures Parse(cfg, partial, head + inc.payload[..inc.filled]) == Parsed([], false)
  {
    HeadIsLocal(cfg, partial, head, inc.payload[..inc.filled]);
    hide ParseHead;
  }

  const MAX_HANDSHAKE_BYTES := 4096
  const HANDSHAKE_CHUNK := 256

  datatype Answer = Answer(head: Bytes, leftover: Bytes)

  lemma SplitAnswer(response: Bytes, at: nat, wire: Bytes)
    requires BlankAt(response, at)
    ensures response + wire == response[..at] + BLANK_LINE + (response[at + 4..] + wire)
  {
    assert response == response[..at] + BLANK_LINE + response[at + 4..];
    Associative(response[..at] + BLANK_LINE, response[at + 4..], wire);
  }

  /** The server's answer is longer than the client is willing to read, or never ends. */
  ghost predicate AnswerTooLong(wire: Bytes) {
    |wire| >= MAX_HANDSHAKE_BYTES && (HeaderEnd(wire).Some? ==> HeaderEnd(wire).value + 4 > MAX_HANDSHAKE_BYTES)
  }

  lemma NoAnswerYet(response: Bytes, wire: Bytes)
    requires HeaderEnd(response) == None && |response| >= MAX_HANDSHAKE_BYTES
    ensures AnswerTooLong(response + wire)
  {
    HeaderEndIsLater(response, wire);
    hide HeaderEnd;
  }

  /**
   * Reads until the blank line that ends the server's answer; `patience` bounds how often it waits for more. It fails
   * only by a fault, by one wait too many, by an answer cut off before its blank line, or by one too long.
   */
  method ReadAnswer(stream: Socket, patience: nat) returns (r: Result<Answer>)
    modifies stream`wire, stream`blocks, stream`readFaults
    ensures r.Ok? ==> old(stream.wire) == r.value.head + BLANK_LINE + (r.value.leftover + stream.wire)
    ensures r.Ok? ==> HeaderEnd(old(stream.wire)) == Some(|r.value.head|)
    ensures r.Ok? ==> |r.value.head| + 4 < MAX_HANDSHAKE_BYTES + HANDSHAKE_CHUNK
    ensures stream.readFaults >= old(stream.readFaults) && stream.blocks >= old(stream.blocks)
    ensures r.Err? ==> stream.readFaults > old(stream.readFaults) || stream.blocks > old(stream.blocks) + patience
                       || HeaderEnd(old(stream.wire)) == None || AnswerTooLong(old(stream.wire))
  {
    var response: Bytes := [];
    var waits := patience;
    ghost var all := stream.wire;
    assert response + all == all;
    hide HeaderEnd, AnswerTooLong;
    while true
      invariant response + stream.wire == all && stream.readFaults == old(stream.readFaults)
      invariant |response| < MAX_HANDSHAKE_BYTES + HANDSHAKE_CHUNK
      invariant 0 <= waits <= patience && stream.blocks == old(stream.blocks) + (patience - waits)
      decreases |stream.wire| + waits
    {
      hide HeaderEnd, AnswerTooLong;
      var end := FindHeaderEnd(response);
      if end.Some? {
        HeaderEndStays(response, stream.wire);
        SplitAnswer(response, end.value, stream.wire);
        return Ok(Answer(response[..end.value], response[end.value + 4..]));
      }
      if |response| >= MAX_HANDSHAKE_BYTES {
        NoAnswerYet(response, stream.wire);
        return Err(Invalid);
      }
      var got := stream.Read(HANDSHAKE_CHUNK);
      match got {
        case Data(bytes) =>
          Associative(response, bytes, stream.wire);
          response := response + bytes;
        case WouldBlock =>
          if waits == 0 {
            return Err(Io);
          }
          waits := waits - 1;
        case Eof =>
          assert response == all;
          return Err(Io);
        case Fault => return Err(Io);
      }
    }
  }

  /**
   * The upgrade: `accepts` stands for the checks made on the answer. The client then reads exactly what follows the
   * blank line, whether it came along with the answer or not. A connection is refused only by a fault, for want of a
   * timely, complete and short enough answer, or by those checks.
   */
  method Connect(stream: Socket, cfg: Config, request: Bytes, accepts: Bytes -> bool, patience: nat)
    returns (r: Result<WsClient>)
    modifies stream
    ensures r.Ok? ==>
              && fresh(r.value) && fresh(r.value.header) && r.value.stream == stream && r.value.cfg == cfg
              && r.value.Valid()
    ensures r.Ok? ==>
              && HeaderEnd(old(stream.wire)).Some?
              && accepts(old(stream.wire)[..HeaderEnd(old(stream.wire)).value])
              && HeaderEnd(old(stream.wire)).value + 4 < MAX_HANDSHAKE_BYTES + HANDSHAKE_CHUNK
              && r.value.Future() == Parse(cfg, None, old(stream.wire)[HeaderEnd(old(stream.wire)).value + 4..])
    ensures stream.readFaults >= old(stream.readFaults) && stream.blocks >= old(stream.blocks)
    ensures r.Ok? ==> stream.sent == old(stream.sent) + request && stream.writeFaults == old(stream.writeFaults)
    ensures r.Err? ==> stream.writeFaults > old(stream.writeFaults)
                       || stream.readFaults > old(stream.readFaults) || stream.blocks > old(stream.blocks) + patience
                       || HeaderEnd(old(stream.wire)) == None || AnswerTooLong(old(stream.wire))
                       || !accepts(old(stream.wire)[..HeaderEnd(old(stream.wire)).value])
  {
    ghost var all := stream.wire;
    var written := stream.WriteAll(request);
    if written.Err? {
      return Err(written.error);
    }
    var flushed := stream.Flush();
    if flushed.Err? {
      return Err(flushed.error);
    }
    var answer := ReadAnswer(stream, patience);
    if answer.Err? {
      return Err(answer.error);
    }
    assert all[..|answer.value.head|] == answer.value.head;
    if !accepts(answer.value.head) {
      return Err(Invalid);
    }
    var client := new WsClient(stream, cfg, answer.value.leftover);
    hide HeaderEnd, Parse, ParseHead;
    assert all[|answer.value.head| + 4..] == answer.value.leftover + stream.wire;
    return Ok(client);
  }
}
