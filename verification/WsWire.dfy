/** Frames spelled out in bytes, independently of the functions that encode and decode them (RFC 6455, section 5). */
module WsWire {
  import opened Prelude
  import opened WsCodec
  import opened WebSocket

  ghost predicate DeliversBefore(cfg: Config, partial: Option<Partial>, wire: Bytes, frame: Frame, rest: Bytes) {
    var after := Parse(cfg, partial, rest);
    Parse(cfg, partial, wire + rest) == Parsed([frame] + after.frames, after.failed)
  }

  /** The frame is delivered and the parser goes on from where it was. */
  ghost predicate Delivers(cfg: Config, partial: Option<Partial>, wire: Bytes, frame: Frame) {
    forall rest: Bytes :: DeliversBefore(cfg, partial, wire, frame, rest)
  }

  ghost predicate FailsBefore(cfg: Config, partial: Option<Partial>, wire: Bytes, rest: Bytes) {
    Parse(cfg, partial, wire + rest) == Parsed([], true)
  }

  /** The stream is a protocol error from here, whatever follows. */
  ghost predicate Violates(cfg: Config, partial: Option<Partial>, wire: Bytes) {
    forall rest: Bytes :: FailsBefore(cfg, partial, wire, rest)
  }

  // ----- Lengths, most significant byte first -----

  lemma TwoBytes(b: Bytes)
    requires |b| == 2
    ensures FromBe(b) == 256 * b[0] as int + b[1] as int
  {
    assert b[..1] == [b[0]] && b[..1][..0] == [];
    assert FromBe([b[0]]) == b[0] as int;
  }

  lemma {:induction false} OneMoreByte(b: Bytes)
    requires b != []
    ensures FromBe(b) == 256 * FromBe(b[..|b| - 1]) + b[|b| - 1] as int
  {
  }

  function FourBytes(b0: byte, b1: byte, b2: byte, b3: byte): nat {
    0x100_0000 * b0 as int + 0x1_0000 * b1 as int + 0x100 * b2 as int + b3 as int
  }

  lemma EightBytes(b: Bytes)
    requires |b| == 8
    ensures FromBe(b) == 0x1_0000_0000 * FourBytes(b[0], b[1], b[2], b[3]) + FourBytes(b[4], b[5], b[6], b[7])
  {
    assert b[..8] == b && b[..7] == b[..8][..7] && b[..6] == b[..7][..6] && b[..5] == b[..6][..5];
    assert b[..4] == b[..5][..4] && b[..3] == b[..4][..3] && b[..2] == b[..3][..2];
    TwoBytes(b[..2]);
    OneMoreByte(b[..3]);
    OneMoreByte(b[..4]);
    OneMoreByte(b[..5]);
    OneMoreByte(b[..6]);
    OneMoreByte(b[..7]);
    OneMoreByte(b[..8]);
  }

  /** The three forms of a length: in the second byte, in two more, or in eight more. */
  lemma LengthForms(head: Bytes)
    requires |head| >= 2 && |head| == HeadSize(head[1])
    ensures
      var low := head[1] as int % 128;
      && |head| == (if low == 126 then 4 else if low == 127 then 10 else 2)
      && DeclaredLen(head)
         == if low == 126 then 256 * head[2] as int + head[3] as int
            else if low == 127 then
              0x1_0000_0000 * FourBytes(head[2], head[3], head[4], head[5])
              + FourBytes(head[6], head[7], head[8], head[9])
            else low
  {
    if |head| == 4 {
      TwoBytes(head[2..]);
    } else if |head| == 10 {
      EightBytes(head[2..]);
    }
    hide FromBe;
  }

  // ----- What a frame delivers -----

  /** A frame of at most 125 bytes: final, the opcode, the length, the payload. */
  function ShortFrame(opcode: nat, payload: Bytes): Bytes
    requires opcode < 16 && |payload| <= 125
  {
    [128 + opcode, |payload|] + payload
  }

  lemma ShortIsServerFrame(opcode: nat, payload: Bytes)
    requires opcode < 16 && |payload| <= 125
    ensures ServerFrame(true, opcode, payload) == ShortFrame(opcode, payload)
  {
  }

  lemma ParsesShort(cfg: Config, partial: Option<Partial>, opcode: nat, payload: Bytes, rest: Bytes)
    requires opcode < 16 && |payload| <= 125 && Admits(cfg, partial, true, opcode, |payload|)
    ensures
      var effect := Dispatch(cfg, partial, true, opcode, payload);
      Parse(cfg, partial, ShortFrame(opcode, payload) + rest)
      == if effect.Violation? then Parsed([], true) else Prepend(effect.frame, Parse(cfg, effect.partial, rest))
  {
    ShortIsServerFrame(opcode, payload);
    FrameRoundTrip(cfg, partial, true, opcode, payload, rest);
    hide ServerFrame, ShortFrame, ParseOne, Dispatch, Admits;
  }

  lemma ShortDelivers(cfg: Config, partial: Option<Partial>, opcode: nat, payload: Bytes, frame: Frame)
    requires opcode < 16 && |payload| <= 125 && Admits(cfg, partial, true, opcode, |payload|)
    requires Dispatch(cfg, partial, true, opcode, payload) == Effect(Some(frame), partial)
    ensures Delivers(cfg, partial, ShortFrame(opcode, payload), frame)
  {
    hide Parse, Dispatch, Admits, ShortFrame;
    forall rest: Bytes
      ensures DeliversBefore(cfg, partial, ShortFrame(opcode, payload), frame, rest)
    {
      ParsesShort(cfg, partial, opcode, payload, rest);
    }
  }

  lemma ShortViolates(cfg: Config, partial: Option<Partial>, opcode: nat, payload: Bytes)
    requires opcode < 16 && |payload| <= 125 && Admits(cfg, partial, true, opcode, |payload|)
    requires Dispatch(cfg, partial, true, opcode, payload) == Violation
    ensures Violates(cfg, partial, ShortFrame(opcode, payload))
  {
    hide Parse, Dispatch, Admits, ShortFrame;
    forall rest: Bytes
      ensures FailsBefore(cfg, partial, ShortFrame(opcode, payload), rest)
    {
      ParsesShort(cfg, partial, opcode, payload, rest);
    }
  }

  /** Pings and pongs at any time; unfragmented messages when no other is in progress. */
  lemma EachOpcode(cfg: Config, partial: Option<Partial>, payload: Bytes)
    requires |payload| <= 125
    ensures Delivers(cfg, partial, [137, |payload|] + payload, Ping(payload))
    ensures Delivers(cfg, partial, [138, |payload|] + payload, Pong(payload))
    ensures partial.None? && |payload| <= cfg.maxFrame ==>
              && Delivers(cfg, partial, [129, |payload|] + payload, Text(payload))
              && Delivers(cfg, partial, [130, |payload|] + payload, Binary(payload))
  {
    hide Delivers;
    ShortDelivers(cfg, partial, 9, payload, Ping(payload));
    ShortDelivers(cfg, partial, 10, payload, Pong(payload));
    if partial.None? && |payload| <= cfg.maxFrame {
      ShortDelivers(cfg, partial, 1, payload, Text(payload));
      ShortDelivers(cfg, partial, 2, payload, Binary(payload));
    }
  }

  lemma CloseParts(byte0: byte, byte1: byte, reason: Bytes)
    requires |reason| <= 123
    ensures
      var payload := [byte0, byte1] + reason;
      && |payload| == 2 + |reason| && payload[0] == byte0 && payload[1] == byte1 && payload[2..] == reason
      && ShortFrame(8, payload) == [136, 2 + |reason|, byte0, byte1] + reason
  {
  }

  /** A close frame delivers its code, most significant byte first, and its reason; or says that there was none. */
  lemma CloseRoundTrip(cfg: Config, partial: Option<Partial>, code: nat, reason: Bytes)
    requires code < 65536 && |reason| <= 123 && cfg.isUtf8(reason)
    ensures Delivers(cfg, partial, [136, 2 + |reason|, code / 256, code % 256] + reason, Close(Code(code, reason)))
    ensures Delivers(cfg, partial, [136, 0], Close(NoCode))
  {
    CloseParts(code / 256, code % 256, reason);
    assert ShortFrame(8, []) == [136, 0];
    hide Delivers, ShortFrame;
    ShortDelivers(cfg, partial, 8, [code / 256, code % 256] + reason, Close(Code(code, reason)));
    ShortDelivers(cfg, partial, 8, [], Close(NoCode));
  }

  /** A close frame of a single byte, or with a reason that is not UTF-8, is a protocol error. */
  lemma BadClose(cfg: Config, partial: Option<Partial>, byte0: byte, byte1: byte, reason: Bytes)
    requires |reason| <= 123 && !cfg.isUtf8(reason)
    ensures Violates(cfg, partial, [136, 1, byte0])
    ensures Violates(cfg, partial, [136, 2 + |reason|, byte0, byte1] + reason)
  {
    CloseParts(byte0, byte1, reason);
    assert ShortFrame(8, [byte0]) == [136, 1, byte0];
    hide Violates, ShortFrame;
    ShortViolates(cfg, partial, 8, [byte0, byte1] + reason);
    ShortViolates(cfg, partial, 8, [byte0]);
  }

  // ----- What is refused -----

  /**
   * The protocol errors of a header, on its bytes: a reserved bit, a mask, a reserved opcode; a control frame in pieces
   * or of more than 125 bytes; a continuation of nothing, a new message inside another; and what is over the limits.
   */
  ghost predicate HeadError(cfg: Config, partial: Option<Partial>, head: Bytes)
    requires |head| >= 2 && |head| == HeadSize(head[1])
  {
    var opcode, fin, len := head[0] as int % 16, head[0] >= 128, DeclaredLen(head);
    var held := if partial.Some? then |partial.value.buf| else 0;
    || head[0] as int % 128 >= 16 || head[1] >= 128 || len > USIZE_MAX
    || 3 <= opcode <= 7 || opcode >= 11
    || (opcode >= 8 && (!fin || len > 125))
    || (opcode == 0 && (partial.None? || Min(held + len, USIZE_MAX) > cfg.maxMessage))
    || ((opcode == 1 || opcode == 2) && (partial.Some? || (!fin && len > cfg.maxMessage)))
    || (opcode < 8 && len > cfg.maxFrame)
  }

  lemma RefusedFails(cfg: Config, partial: Option<Partial>, head: Bytes)
    requires ParseHead(cfg, partial, head) == Refused
    ensures Violates(cfg, partial, head)
  {
    hide ParseHead;
    forall rest: Bytes
      ensures FailsBefore(cfg, partial, head, rest)
    {
      HeadIsLocal(cfg, partial, head, rest);
    }
  }

  /** A whole header is refused exactly for these errors, and then nothing after it is read. */
  lemma RefusedIff(cfg: Config, partial: Option<Partial>, head: Bytes)
    requires |head| >= 2 && |head| == HeadSize(head[1])
    ensures ParseHead(cfg, partial, head) == Refused <==> HeadError(cfg, partial, head)
    ensures ParseHead(cfg, partial, head) != More
    ensures HeadError(cfg, partial, head) ==> Violates(cfg, partial, head)
  {
    assert head[..HeadSize(head[1])] == head;
    BitsOfFirst(head[0]);
    hide DeclaredLen, HeadSize;
    if HeadError(cfg, partial, head) {
      RefusedFails(cfg, partial, head);
    }
  }

  lemma BitsOfFirst(b0: byte)
    ensures b0 as int / 16 % 8 == 0 <==> b0 as int % 128 < 16
  {
  }

  /** A reserved bit or a mask is refused as soon as the first two bytes are there. */
  lemma RefusedEarly(cfg: Config, partial: Option<Partial>, b0: byte, b1: byte)
    requires b0 as int % 128 >= 16 || b1 >= 128
    ensures Violates(cfg, partial, [b0, b1])
  {
    BitsOfFirst(b0);
    RefusedFails(cfg, partial, [b0, b1]);
  }

  // ----- What the client sends -----

  /** The bit of weight two to the `k`. */
  function Bit(x: nat, k: nat): nat {
    if k == 0 then x % 2 else Bit(x / 2, k - 1)
  }

  lemma {:induction false} XorBitsBit(a: nat, b: nat, n: nat, k: nat)
    requires k < n
    ensures Bit(XorBits(a, b, n), k) == (Bit(a, k) + Bit(b, k)) % 2
  {
    var high, low := XorBits(a / 2, b / 2, n - 1), (a + b) % 2;
    assert XorBits(a, b, n) == 2 * high + low;
    assert (2 * high + low) / 2 == high && (2 * high + low) % 2 == low;
    if k > 0 {
      XorBitsBit(a / 2, b / 2, n - 1, k - 1);
    }
  }

  /** Masking: bit by bit the exclusive or with the mask byte whose turn it is. */
  lemma MaskedBitwise(payload: Bytes, mask: Mask, i: nat, k: nat)
    requires i < |payload| && k < 8
    ensures
      var bytes := [mask.0, mask.1, mask.2, mask.3];
      && |Masked(payload, mask)| == |payload|
      && Bit(Masked(payload, mask)[i], k) == (Bit(payload[i], k) + Bit(bytes[i % 4], k)) % 2
  {
    XorBitsBit(payload[i], MaskByte(mask, i), 8, k);
    hide Bit, XorBits;
  }

  /** A client frame in bytes: final, the opcode, the mask bit with the length, the mask, the masked payload. */
  lemma ClientFrameBytes(opcode: nat, payload: Bytes, mask: Mask)
    requires opcode < 16 && |payload| <= USIZE_MAX
    ensures
      var wire, n := ClientFrame(opcode, payload, mask), |payload|;
      var tail := [mask.0, mask.1, mask.2, mask.3] + Masked(payload, mask);
      && (n <= 125 ==> wire == [128 + opcode, 128 + n] + tail)
      && (125 < n <= 65535 ==> wire == [128 + opcode, 254, n / 256, n % 256] + tail)
  {
    var n := |payload|;
    if 125 < n <= 65535 {
      assert ToBe(n, 2) == ToBe(n / 256, 1) + [n % 256];
      assert ToBe(n / 256, 1) == ToBe(n / 256 / 256, 0) + [n / 256 % 256];
      assert ToBe(n, 2) == [n / 256, n % 256];
    }
    hide Masked;
  }
}
