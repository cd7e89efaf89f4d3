/**
 * What a byte stream from the server means: frames, messages and the first protocol error (RFC 6455, sections 5.2 to
 * 5.5).
 */
module WsCodec {
  import opened Prelude

  const OP_CONTINUATION := 0
  const OP_TEXT := 1
  const OP_BINARY := 2
  const OP_CLOSE := 8
  const OP_PING := 9
  const OP_PONG := 10

  const MAX_CONTROL_PAYLOAD := 125

  type usize = n: int | 0 <= n <= USIZE_MAX

  /** Bytes that fit the address space. */
  type Payload = b: Bytes | |b| <= USIZE_MAX

  /** What `Admits` measures a frame and a message against; UTF-8 validity is any predicate. */
  datatype Config = Config(maxFrame: usize, maxMessage: usize, isUtf8: Bytes -> bool)

  datatype CloseInfo = NoCode | Code(code: nat, reason: Bytes)

  datatype Frame =
    | Binary(data: Bytes)
    | Text(data: Bytes)
    | Ping(data: Bytes)
    | Pong(data: Bytes)
    | Close(info: CloseInfo)

  /** A fragmented message in progress. */
  datatype Partial = Partial(opcode: nat, buf: Bytes)

  datatype Head = More | Refused | Head(fin: bool, opcode: nat, len: usize, size: nat)

  function HeadSize(b1: byte): nat {
    if b1 % 128 == 126 then 4 else if b1 % 128 == 127 then 10 else 2
  }

  /** A number from its bytes, most significant first. */
  function FromBe(b: Bytes): nat {
    if b == [] then 0 else 256 * FromBe(b[..|b| - 1]) + b[|b| - 1] as int
  }

  /** The length a complete header declares; any of the three forms may carry any value. */
  function DeclaredLen(head: Bytes): nat
    requires |head| >= 2 && |head| == HeadSize(head[1])
  {
    if |head| == 2 then head[1] as int % 128 else FromBe(head[2..])
  }

  /** What the reader requires of a header before it allocates anything for the payload. */
  predicate Admits(cfg: Config, partial: Option<Partial>, fin: bool, opcode: nat, len: usize) {
    if opcode == OP_CLOSE || opcode == OP_PING || opcode == OP_PONG then fin && len <= MAX_CONTROL_PAYLOAD
    else if opcode == OP_CONTINUATION then
      && partial.Some?
      && Min(|partial.value.buf| + len as int, USIZE_MAX) <= cfg.maxMessage
      && len <= cfg.maxFrame
    else if opcode == OP_TEXT || opcode == OP_BINARY then
      partial.None? && len <= cfg.maxFrame && (fin || len <= cfg.maxMessage)
    else false
  }

  predicate HeadStartOk(b0: byte, b1: byte) {
    b0 / 16 % 8 == 0 && b1 < 128
  }

  /** A complete header, or the earliest point at which it is refused. */
  function ParseHead(cfg: Config, partial: Option<Partial>, input: Bytes): Head {
    if |input| < 2 then More
    else if !HeadStartOk(input[0], input[1]) then Refused
    else
      var size := HeadSize(input[1]);
      if |input| < size then More
      else
        var len := DeclaredLen(input[..size]);
        if len > USIZE_MAX then Refused
        else
          var fin, opcode := input[0] >= 128, input[0] as int % 16;
          if Admits(cfg, partial, fin, opcode, len) then Head(fin, opcode, len, size) else Refused
  }

  function ParseClose(cfg: Config, payload: Bytes): Option<CloseInfo> {
    if |payload| == 0 then Some(NoCode)
    else if |payload| == 1 || !cfg.isUtf8(payload[2..]) then None
    else Some(Code(Be16(payload[0], payload[1]), payload[2..]))
  }

  function Message(opcode: nat, data: Bytes): Frame {
    if opcode == OP_TEXT then Text(data) else Binary(data)
  }

  /** What a complete frame leads to: a delivery, a longer partial message, or an error. */
  datatype Effect = Effect(frame: Option<Frame>, partial: Option<Partial>) | Violation

  function Dispatch(cfg: Config, partial: Option<Partial>, fin: bool, opcode: nat, payload: Bytes): Effect {
    if opcode == OP_PING then Effect(Some(Ping(payload)), partial)
    else if opcode == OP_PONG then Effect(Some(Pong(payload)), partial)
    else if opcode == OP_CLOSE then
      var info := ParseClose(cfg, payload);
      if info.None? then Violation else Effect(Some(Close(info.value)), partial)
    else if opcode == OP_CONTINUATION then
      if partial.None? then Violation
      else
        var whole := partial.value.buf + payload;
        if fin then Effect(Some(Message(partial.value.opcode, whole)), None)
        else Effect(None, Some(Partial(partial.value.opcode, whole)))
    else if fin then Effect(Some(Message(opcode, payload)), partial)
    else Effect(None, Some(Partial(opcode, payload)))
  }

  /** All frames of a stream, and whether it ends in a protocol error. */
  datatype Parsed = Parsed(frames: seq<Frame>, failed: bool)

  function Prepend(first: Option<Frame>, rest: Parsed): Parsed {
    if first.Some? then Parsed([first.value] + rest.frames, rest.failed) else rest
  }

  /** One frame off the front of a stream. */
  datatype Step = Wait | Fail | Step(frame: Option<Frame>, partial: Option<Partial>, used: nat)

  function ParseOne(cfg: Config, partial: Option<Partial>, input: Bytes): (step: Step)
    ensures step.Step? ==> 2 <= step.used <= |input|
  {
    match ParseHead(cfg, partial, input)
    case More => Wait
    case Refused => Fail
    case Head(fin, opcode, len, size) =>
      if |input| < size + len as int then Wait
      else
        match Dispatch(cfg, partial, fin, opcode, input[size..size + len as int])
        case Violation => Fail
        case Effect(frame, next) => Step(frame, next, size + len as int)
  }

  /** The one-shot parser: the whole stream at once, from the start of a frame. */
  function Parse(cfg: Config, partial: Option<Partial>, input: Bytes): Parsed
    decreases |input|
  {
    match ParseOne(cfg, partial, input)
    case Wait => Parsed([], false)
    case Fail => Parsed([], true)
    case Step(frame, next, used) => Prepend(frame, Parse(cfg, next, input[used..]))
  }

  /** A verdict on a header stands, whatever follows it. */
  lemma HeadIsLocal(cfg: Config, partial: Option<Partial>, input: Bytes, more: Bytes)
    requires ParseHead(cfg, partial, input) != More
    ensures ParseHead(cfg, partial, input + more) == ParseHead(cfg, partial, input)
  {
    hide Admits, DeclaredLen;
    if HeadStartOk(input[0], input[1]) {
      assert (input + more)[..HeadSize(input[1])] == input[..HeadSize(input[1])];
    }
  }

  lemma OneIsLocal(cfg: Config, partial: Option<Partial>, input: Bytes, more: Bytes)
    requires ParseOne(cfg, partial, input) != Wait
    ensures ParseOne(cfg, partial, input + more) == ParseOne(cfg, partial, input)
  {
    HeadIsLocal(cfg, partial, input, more);
    hide ParseHead, Dispatch;
    var head := ParseHead(cfg, partial, input);
    if head.Head? {
      assert (input + more)[head.size..head.size + head.len as int] == input[head.size..head.size + head.len as int];
    }
  }

  /** More bytes only extend the frames already parsed, and an error is final. */
  lemma {:induction false} ParseExtends(cfg: Config, partial: Option<Partial>, input: Bytes, more: Bytes)
    ensures Parse(cfg, partial, input).frames <= Parse(cfg, partial, input + more).frames
    ensures Parse(cfg, partial, input).failed ==> Parse(cfg, partial, input + more) == Parse(cfg, partial, input)
    decreases |input|
  {
    hide ParseOne;
    var step := ParseOne(cfg, partial, input);
    if step != Wait {
      OneIsLocal(cfg, partial, input, more);
      if step.Step? {
        assert (input + more)[step.used..] == input[step.used..] + more;
        ParseExtends(cfg, step.partial, input[step.used..], more);
      }
    }
  }

  /** The bytes held for a frame being filled and for a partial message. */
  function Held(partial: Option<Partial>): nat {
    if partial.Some? then |partial.value.buf| else 0
  }

  /** What an admitted header can make the reader hold on to. */
  lemma AdmittedIsBounded(cfg: Config, partial: Option<Partial>, fin: bool, opcode: nat, len: usize)
    requires Admits(cfg, partial, fin, opcode, len)
    requires cfg.maxMessage < USIZE_MAX && Held(partial) <= cfg.maxMessage
    ensures Held(partial) + len as int <= Max(cfg.maxFrame, cfg.maxMessage + MAX_CONTROL_PAYLOAD)
    ensures !fin ==> Held(partial) + len as int <= cfg.maxMessage
    ensures opcode == OP_CONTINUATION ==> Held(partial) + len as int <= cfg.maxMessage
  {
  }

  // ----- Encoding: what a server sends, with the shortest length form -----

  /** A number as `n` bytes, most significant first. */
  function ToBe(value: nat, n: nat): Bytes {
    if n == 0 then [] else ToBe(value / 256, n - 1) + [value % 256]
  }

  function Pow256(n: nat): nat {
    if n == 0 then 1 else 256 * Pow256(n - 1)
  }

  lemma {:induction false} BeRoundTrip(value: nat, n: nat)
    requires value < Pow256(n)
    ensures |ToBe(value, n)| == n && FromBe(ToBe(value, n)) == value
  {
    if n > 0 {
      BeRoundTrip(value / 256, n - 1);
      var b := ToBe(value, n);
      assert b[..|b| - 1] == ToBe(value / 256, n - 1);
    }
  }

  lemma LengthsFit(len: usize)
    ensures len < Pow256(8) && (len < 65536 ==> len < Pow256(2))
  {
    assert Pow256(2) == 256 * (256 * Pow256(0));
    assert Pow256(4) == 256 * (256 * Pow256(2));
    assert Pow256(8) == 256 * (256 * (256 * (256 * Pow256(4))));
  }

  /**
   * The length bytes that follow the first header byte, in the shortest of the three forms; `mask` sets the mask bit.
   */
  function LengthBytes(len: usize, mask: bool): Bytes {
    var bit := if mask then 128 else 0;
    if len <= 125 then [bit + len]
    else if len <= 65535 then [bit + 126] + ToBe(len, 2)
    else [bit + 127] + ToBe(len, 8)
  }

  function ServerFrame(fin: bool, opcode: nat, payload: Bytes): Bytes
    requires opcode < 16 && |payload| <= USIZE_MAX
  {
    [if fin then 128 + opcode else opcode] + LengthBytes(|payload|, false) + payload
  }

  lemma LengthBytesParse(b0: byte, len: usize, mask: bool)
    ensures
      var head := [b0] + LengthBytes(len, mask);
      && |head| >= 2 && (head[1] >= 128 <==> mask)
      && |head| == HeadSize(head[1]) && DeclaredLen(head) == len
      && |head| == if len <= 125 then 2 else if len <= 65535 then 4 else 10
  {
    LengthsFit(len);
    hide ToBe, FromBe, Pow256;
    if len > 125 {
      var n := if len <= 65535 then 2 else 8;
      BeRoundTrip(len, n);
      var marked := [if mask then 128 + (if n == 2 then 126 else 127) else if n == 2 then 126 else 127];
      assert LengthBytes(len, mask) == marked + ToBe(len, n);
      SkipTwo(b0, marked, ToBe(len, n));
    }
  }

  lemma SkipTwo(b0: byte, marked: Bytes, rest: Bytes)
    requires |marked| == 1
    ensures ([b0] + (marked + rest))[2..] == rest && ([b0] + (marked + rest))[1] == marked[0]
  {
  }

  /** An admitted frame parses back to itself, and the rest of the stream is untouched. */
  lemma FrameRoundTrip(cfg: Config, partial: Option<Partial>, fin: bool, opcode: nat, payload: Bytes, rest: Bytes)
    requires opcode < 16 && |payload| <= USIZE_MAX && Admits(cfg, partial, fin, opcode, |payload|)
    ensures
      var wire := ServerFrame(fin, opcode, payload);
      && ParseOne(cfg, partial, wire + rest)
         == (match Dispatch(cfg, partial, fin, opcode, payload)
             case Violation => Fail
             case Effect(frame, next) => Step(frame, next, |wire|))
      && (wire + rest)[|wire|..] == rest
  {
    var b0: byte := if fin then 128 + opcode else opcode;
    LengthBytesParse(b0, |payload|, false);
    hide LengthBytes, DeclaredLen, HeadSize, Admits, Dispatch;
    var head, wire := [b0] + LengthBytes(|payload|, false), ServerFrame(fin, opcode, payload);
    assert wire == head + payload;
    assert (wire + rest)[..|head|] == head;
    assert (wire + rest)[|head|..|wire|] == payload;
  }

  datatype Control = Control(opcode: nat, payload: Bytes)

  /** A ping, a pong or a close the client can make sense of. */
  predicate ControlOk(cfg: Config, c: Control) {
    && (c.opcode == OP_PING || c.opcode == OP_PONG || c.opcode == OP_CLOSE)
    && |c.payload| <= MAX_CONTROL_PAYLOAD
    && (c.opcode == OP_CLOSE ==> ParseClose(cfg, c.payload).Some?)
  }

  predicate ControlsOk(cfg: Config, cs: seq<Control>) {
    cs == [] || (ControlOk(cfg, cs[0]) && ControlsOk(cfg, cs[1..]))
  }

  function ControlFrame(cfg: Config, c: Control): Frame
    requires ControlOk(cfg, c)
  {
    if c.opcode == OP_PING then Ping(c.payload)
    else if c.opcode == OP_PONG then Pong(c.payload)
    else Close(ParseClose(cfg, c.payload).value)
  }

  function ControlsWire(cfg: Config, cs: seq<Control>): Bytes
    requires ControlsOk(cfg, cs)
  {
    if cs == [] then [] else ServerFrame(true, cs[0].opcode, cs[0].payload) + ControlsWire(cfg, cs[1..])
  }

  function ControlFrames(cfg: Config, cs: seq<Control>): seq<Frame>
    requires ControlsOk(cfg, cs)
  {
    if cs == [] then [] else [ControlFrame(cfg, cs[0])] + ControlFrames(cfg, cs[1..])
  }

  lemma ControlPasses(cfg: Config, partial: Option<Partial>, c: Control, rest: Bytes)
    requires ControlOk(cfg, c)
    ensures
      var wire := ServerFrame(true, c.opcode, c.payload);
      && ParseOne(cfg, partial, wire + rest) == Step(Some(ControlFrame(cfg, c)), partial, |wire|)
      && (wire + rest)[|wire|..] == rest
  {
    FrameRoundTrip(cfg, partial, true, c.opcode, c.payload, rest);
    hide ServerFrame, ParseOne, ParseClose;
  }

  lemma ControlThenRest(cfg: Config, partial: Option<Partial>, c: Control, rest: Bytes)
    requires ControlOk(cfg, c)
    ensures
      var after := Parse(cfg, partial, rest);
      Parse(cfg, partial,
            ServerFrame(true, c.opcode, c.payload) + rest) == Parsed([ControlFrame(cfg, c)] + after.frames,
                                                                     after.failed)
  {
    ControlPasses(cfg, partial, c, rest);
    hide ServerFrame, ParseOne, ControlOk, ControlFrame;
  }

  lemma ControlsSplit(cfg: Config, cs: seq<Control>, rest: Bytes, frames: seq<Frame>)
    requires cs != [] && ControlsOk(cfg, cs)
    ensures ControlsWire(cfg, cs) + rest
            == ServerFrame(true, cs[0].opcode, cs[0].payload) + (ControlsWire(cfg, cs[1..]) + rest)
    ensures ControlFrames(cfg, cs) + frames == [ControlFrame(cfg, cs[0])] + (ControlFrames(cfg, cs[1..]) + frames)
  {
    var wire := ServerFrame(true, cs[0].opcode, cs[0].payload);
    Associative(wire, ControlsWire(cfg, cs[1..]), rest);
    Associative([ControlFrame(cfg, cs[0])], ControlFrames(cfg, cs[1..]), frames);
    hide ServerFrame, ControlFrame, ControlOk;
  }

  lemma Associative<T>(a: seq<T>, b: seq<T>, c: seq<T>)
    ensures (a + b) + c == a + (b + c)
  {
  }

  /** Control frames are delivered in order and leave the partial message alone. */
  lemma {:induction false} ControlsPass(cfg: Config, partial: Option<Partial>, cs: seq<Control>, rest: Bytes)
    requires ControlsOk(cfg, cs)
    ensures
      var after := Parse(cfg, partial, rest);
      Parse(cfg, partial, ControlsWire(cfg, cs) + rest) == Parsed(ControlFrames(cfg, cs) + after.frames, after.failed)
  {
    if cs == [] {
      assert ControlsWire(cfg, cs) + rest == rest;
      hide Parse;
    } else {
      ControlThenRest(cfg, partial, cs[0], ControlsWire(cfg, cs[1..]) + rest);
      ControlsSplit(cfg, cs, rest, Parse(cfg, partial, rest).frames);
      hide Parse, ServerFrame, ControlsWire, ControlFrames, ControlFrame, ControlOk;
      ControlsPass(cfg, partial, cs[1..], rest);
    }
  }

  /** A piece of a message, and the control frames the server sends just before it. */
  datatype Piece = Piece(before: seq<Control>, payload: Bytes)

  predicate PieceOk(cfg: Config, p: Piece) {
    |p.payload| <= cfg.maxFrame && ControlsOk(cfg, p.before)
  }

  predicate PiecesOk(cfg: Config, ps: seq<Piece>) {
    ps == [] || (PieceOk(cfg, ps[0]) && PiecesOk(cfg, ps[1..]))
  }

  function Concat(ps: seq<Piece>): Bytes {
    if ps == [] then [] else ps[0].payload + Concat(ps[1..])
  }

  function AllControls(cfg: Config, ps: seq<Piece>): seq<Frame>
    requires PiecesOk(cfg, ps)
  {
    if ps == [] then [] else ControlFrames(cfg, ps[0].before) + AllControls(cfg, ps[1..])
  }

  /** A message on the wire: the first piece under its opcode, the others as continuations, the last one final. */
  function PiecesWire(cfg: Config, opcode: nat, ps: seq<Piece>): Bytes
    requires (opcode == OP_CONTINUATION || opcode == OP_TEXT || opcode == OP_BINARY) && PiecesOk(cfg, ps)
  {
    if ps == [] then []
    else
      ControlsWire(cfg, ps[0].before) + ServerFrame(|ps| == 1, opcode, ps[0].payload)
      + PiecesWire(cfg, OP_CONTINUATION, ps[1..])
  }

  lemma FirstPiece(cfg: Config, opcode: nat, ps: seq<Piece>, rest: Bytes)
    requires opcode == OP_CONTINUATION || opcode == OP_TEXT || opcode == OP_BINARY
    requires ps != [] && PiecesOk(cfg, ps)
    ensures
      var frame := ServerFrame(|ps| == 1, opcode, ps[0].payload);
      var tail := PiecesWire(cfg, OP_CONTINUATION, ps[1..]) + rest;
      && PiecesWire(cfg, opcode, ps) + rest == ControlsWire(cfg, ps[0].before) + (frame + tail)
      && Concat(ps) == ps[0].payload + Concat(ps[1..])
      && AllControls(cfg, ps) == ControlFrames(cfg, ps[0].before) + AllControls(cfg, ps[1..])
      && (|ps| == 1 ==>
            tail == rest && Concat(ps) == ps[0].payload && AllControls(cfg, ps) == ControlFrames(cfg, ps[0].before))
  {
    hide ServerFrame, ControlsWire, ControlFrames, PieceOk;
  }

  /** The data frame of a piece, parsed after its control frames. */
  lemma PieceParses(cfg: Config, partial: Option<Partial>, opcode: nat, ps: seq<Piece>, rest: Bytes)
    requires opcode == OP_CONTINUATION || opcode == OP_TEXT || opcode == OP_BINARY
    requires ps != [] && PiecesOk(cfg, ps) && (opcode == OP_CONTINUATION <==> partial.Some?)
    requires (|ps| == 1 && partial.None?) || Held(partial) + |ps[0].payload| <= cfg.maxMessage
    ensures
      var tail := PiecesWire(cfg, OP_CONTINUATION, ps[1..]) + rest;
      var effect := Dispatch(cfg, partial, |ps| == 1, opcode, ps[0].payload);
      var after := Parse(cfg, effect.partial, tail);
      && effect.Effect?
      && Parse(cfg, partial, PiecesWire(cfg, opcode, ps) + rest)
         == Parsed(ControlFrames(cfg, ps[0].before) + Prepend(effect.frame, after).frames, after.failed)
  {
    var frame := ServerFrame(|ps| == 1, opcode, ps[0].payload);
    var tail := PiecesWire(cfg, OP_CONTINUATION, ps[1..]) + rest;
    FirstPiece(cfg, opcode, ps, rest);
    FrameRoundTrip(cfg, partial, |ps| == 1, opcode, ps[0].payload, tail);
    ControlsPass(cfg, partial, ps[0].before, frame + tail);
    hide ServerFrame, ParseOne, ControlsWire, ControlFrames, ParseHead, PiecesWire;
  }

  lemma FramesJoin(first: seq<Frame>, others: seq<Frame>, message: Frame, after: seq<Frame>)
    ensures first + (others + [message] + after) == (first + others) + [message] + after
    ensures first + ([message] + after) == first + [message] + after
  {
  }

  lemma {:induction false} ContinuationsDeliver(cfg: Config, started: Partial, ps: seq<Piece>, rest: Bytes)
    requires ps != [] && PiecesOk(cfg, ps)
    requires |started.buf| + |Concat(ps)| <= cfg.maxMessage
    ensures
      var after := Parse(cfg, None, rest);
      Parse(cfg, Some(started), PiecesWire(cfg, OP_CONTINUATION, ps) + rest)
      == Parsed(AllControls(cfg, ps) + [Message(started.opcode, started.buf + Concat(ps))] + after.frames, after.failed)
    decreases |ps|
  {
    FirstPiece(cfg, OP_CONTINUATION, ps, rest);
    PieceParses(cfg, Some(started), OP_CONTINUATION, ps, rest);
    var longer := Partial(started.opcode, started.buf + ps[0].payload);
    var message, after := Message(started.opcode, started.buf + Concat(ps)), Parse(cfg, None, rest);
    Associative(started.buf, ps[0].payload, Concat(ps[1..]));
    FramesJoin(ControlFrames(cfg, ps[0].before), AllControls(cfg, ps[1..]), message, after.frames);
    hide *;
    ContinuationEffect(cfg, started, |ps| == 1, ps[0].payload);
    if |ps| > 1 {
      RestOk(cfg, ps);
      ContinuationsDeliver(cfg, longer, ps[1..], rest);
    }
  }

  lemma RestOk(cfg: Config, ps: seq<Piece>)
    requires ps != [] && PiecesOk(cfg, ps)
    ensures PiecesOk(cfg, ps[1..])
  {
  }

  lemma ContinuationEffect(cfg: Config, started: Partial, fin: bool, payload: Bytes)
    ensures Dispatch(cfg, Some(started), fin, OP_CONTINUATION, payload)
            == if fin then Effect(Some(Message(started.opcode, started.buf + payload)), None)
               else Effect(None, Some(Partial(started.opcode, started.buf + payload)))
    ensures forall f: Option<Frame>, p: Parsed :: Prepend(f, p) == if f.Some? then Parsed([f.value] + p.frames,
                                                                                          p.failed) else p
  {
  }

  /**
   * Fragmentation round trip: however a message within the limits is cut into frames, and whatever control frames the
   * server puts between them, it is delivered once, whole, after those control frames in their order.
   */
  lemma MessageDeliveredOnce(cfg: Config, opcode: nat, ps: seq<Piece>, rest: Bytes)
    requires opcode == OP_TEXT || opcode == OP_BINARY
    requires ps != [] && PiecesOk(cfg, ps)
    requires |ps| == 1 || |Concat(ps)| <= cfg.maxMessage
    ensures
      var after := Parse(cfg, None, rest);
      Parse(cfg, None, PiecesWire(cfg, opcode, ps) + rest)
      == Parsed(AllControls(cfg, ps) + [Message(opcode, Concat(ps))] + after.frames, after.failed)
  {
    FirstPiece(cfg, opcode, ps, rest);
    PieceParses(cfg, None, opcode, ps, rest);
    hide ServerFrame, Parse, PiecesWire, ControlsWire, ControlFrames, PieceOk, AllControls, Concat, Message;
    FramesJoin(ControlFrames(cfg, ps[0].before), AllControls(cfg, ps[1..]), Message(opcode, Concat(ps)),
               Parse(cfg, None, rest).frames);
    if |ps| > 1 {
      ContinuationsDeliver(cfg, Partial(opcode, ps[0].payload), ps[1..], rest);
    }
  }
}
