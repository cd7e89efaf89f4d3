/** What the client has put on the wire, frame by frame, and what a server makes of it. */
module Outbound {
  import opened Prelude
  import opened WsCodec
  import opened WebSocket

  type Opcode = o: nat | o < 16

  /**
   * One attempt to write a frame: how many of its bytes were written, and whether the attempt was reported a success.
   */
  datatype Emission = Emission(opcode: Opcode, payload: Payload, mask: Mask, cut: nat, ok: bool)

  function FrameOf(e: Emission): Bytes {
    ClientFrame(e.opcode, e.payload, e.mask)
  }

  function Written(e: Emission): Bytes {
    FrameOf(e)[..Min(e.cut, |FrameOf(e)|)]
  }

  predicate Whole(e: Emission) {
    e.cut >= |FrameOf(e)|
  }

  /** Some of the frame was written but not all. */
  predicate Torn(e: Emission) {
    0 < e.cut < |FrameOf(e)|
  }

  function OnWire(log: seq<Emission>): Bytes {
    if log == [] then [] else OnWire(log[..|log| - 1]) + Written(log[|log| - 1])
  }

  /** No success is reported for a frame not written in full. */
  predicate Honest(log: seq<Emission>) {
    log == [] || (Honest(log[..|log| - 1]) && (log[|log| - 1].ok ==> Whole(log[|log| - 1])))
  }

  predicate Intact(log: seq<Emission>) {
    log == [] || (Intact(log[..|log| - 1]) && !Torn(log[|log| - 1]))
  }

  predicate AllOk(log: seq<Emission>) {
    log == [] || (AllOk(log[..|log| - 1]) && log[|log| - 1].ok)
  }

  /** Every binary frame was reported a success. */
  predicate AllJobsOk(log: seq<Emission>) {
    log == [] || (AllJobsOk(log[..|log| - 1]) && (log[|log| - 1].opcode == OP_BINARY ==> log[|log| - 1].ok))
  }

  /** Every binary frame but perhaps the very last: a failed one ends the connection. */
  predicate JobsOk(log: seq<Emission>) {
    log == [] || AllJobsOk(log[..|log| - 1])
  }

  /** The payloads of the binary frames reported a success, in order. */
  function Jobs(log: seq<Emission>): seq<Payload> {
    if log == [] then []
    else
      var last := log[|log| - 1];
      Jobs(log[..|log| - 1]) + if last.opcode == OP_BINARY && last.ok then [last.payload] else []
  }

  /** The payloads of the pongs attempted, in order. */
  function Pongs(log: seq<Emission>): seq<Payload> {
    if log == [] then []
    else
      var last := log[|log| - 1];
      Pongs(log[..|log| - 1]) + if last.opcode == OP_PONG then [last.payload] else []
  }

  lemma OneMoreEmission(log: seq<Emission>, e: Emission)
    ensures OnWire(log + [e]) == OnWire(log) + Written(e)
    ensures Honest(log + [e]) <==> Honest(log) && (e.ok ==> Whole(e))
    ensures Intact(log + [e]) <==> Intact(log) && !Torn(e)
    ensures AllOk(log + [e]) <==> AllOk(log) && e.ok
    ensures AllJobsOk(log + [e]) <==> AllJobsOk(log) && (e.opcode == OP_BINARY ==> e.ok)
    ensures JobsOk(log + [e]) <==> AllJobsOk(log)
    ensures Jobs(log + [e]) == Jobs(log) + if e.opcode == OP_BINARY && e.ok then [e.payload] else []
    ensures Pongs(log + [e]) == Pongs(log) + if e.opcode == OP_PONG then [e.payload] else []
    ensures Completed(log + [e]) == Completed(log) + if Whole(e) then [Received(true, e.opcode, e.payload)] else []
  {
    assert (log + [e])[..|log|] == log;
  }

  // ----- The server's side -----

  datatype Received = Received(fin: bool, opcode: nat, payload: Bytes)

  /** The frames a server has read and the bytes it still holds of an unfinished one. */
  datatype View = View(frames: seq<Received>, rest: Bytes)

  function ServerReadAll(wire: Bytes): View
    decreases |wire|
  {
    match ServerRead(wire)
    case None => View([], wire)
    case Some(u) =>
      var later := ServerReadAll(wire[u.used..]);
      View([Received(u.fin, u.opcode, u.payload)] + later.frames, later.rest)
  }

  /** The frames written in full, as a server should read them. */
  function Completed(log: seq<Emission>): seq<Received> {
    if log == [] then []
    else
      var last := log[|log| - 1];
      Completed(log[..|log| - 1]) + if Whole(last) then [Received(true, last.opcode, last.payload)] else []
  }

  function Binaries(frames: seq<Received>): seq<Bytes> {
    if frames == [] then []
    else
      var last := frames[|frames| - 1];
      Binaries(frames[..|frames| - 1]) + if last.opcode == OP_BINARY then [last.payload] else []
  }

  lemma OneMoreReceived(frames: seq<Received>, f: Received)
    ensures Binaries(frames + [f]) == Binaries(frames) + if f.opcode == OP_BINARY then [f.payload] else []
  {
    assert (frames + [f])[..|frames|] == frames;
  }

  /** A frame once readable reads the same whatever follows it. */
  lemma ServerReadStays(wire: Bytes, more: Bytes)
    requires ServerRead(wire).Some?
    ensures ServerRead(wire + more) == ServerRead(wire)
  {
    var size := HeadSize(wire[1]);
    var len := DeclaredLen(wire[..size]);
    hide DeclaredLen, HeadSize, Masked;
    assert (wire + more)[..size] == wire[..size];
    assert (wire + more)[size + 4..size + 4 + len] == wire[size + 4..size + 4 + len];
  }

  /** What was read without a remainder stays read, and the rest is read as if alone. */
  lemma {:induction false} ServerReadsOn(a: Bytes, b: Bytes)
    requires ServerReadAll(a).rest == []
    ensures ServerReadAll(a + b) == View(ServerReadAll(a).frames + ServerReadAll(b).frames, ServerReadAll(b).rest)
    decreases |a|
  {
    hide ServerRead;
    if ServerRead(a).None? {
      assert a + b == b;
    } else {
      var u := ServerRead(a).value;
      ServerReadStays(a, b);
      assert (a + b)[u.used..] == a[u.used..] + b;
      ServerReadsOn(a[u.used..], b);
      Associative([Received(u.fin, u.opcode, u.payload)], ServerReadAll(a[u.used..]).frames, ServerReadAll(b).frames);
    }
  }

  lemma NothingToRead()
    ensures ServerReadAll([]) == View([], [])
  {
  }

  lemma WholeFrameIsRead(e: Emission)
    requires Whole(e)
    ensures ServerReadAll(Written(e)) == View([Received(true, e.opcode, e.payload)], [])
  {
    ClientFrameRoundTrip(e.opcode, e.payload, e.mask, []);
    var frame := FrameOf(e);
    assert frame + [] == frame && Written(e) == frame && frame[|frame|..] == [];
    NothingToRead();
    hide ServerRead, ClientFrame;
  }

  /** A torn frame is not read, and neither is anything else of it. */
  lemma TornFrameIsHeld(e: Emission)
    requires Torn(e)
    ensures ServerReadAll(Written(e)) == View([], Written(e)) && Written(e) != []
  {
    ClientFrameRoundTrip(e.opcode, e.payload, e.mask, []);
    var frame := FrameOf(e);
    assert frame + [] == frame;
    assert frame == frame[..e.cut] + frame[e.cut..];
    hide ServerRead, ClientFrame;
    if ServerRead(frame[..e.cut]).Some? {
      ServerReadStays(frame[..e.cut], frame[e.cut..]);
    }
  }

  lemma UnwrittenIsNothing(e: Emission)
    requires !Whole(e) && !Torn(e)
    ensures Written(e) == []
  {
  }

  /** Without a torn frame the server reads exactly the frames written in full, in order, and holds nothing. */
  lemma {:induction false} IntactIsRead(log: seq<Emission>)
    requires Intact(log)
    ensures ServerReadAll(OnWire(log)) == View(Completed(log), [])
  {
    hide ServerReadAll, Written, Whole, Torn;
    if log == [] {
      NothingToRead();
    } else {
      var before, e := log[..|log| - 1], log[|log| - 1];
      IntactIsRead(before);
      ServerReadsOn(OnWire(before), Written(e));
      if Whole(e) {
        WholeFrameIsRead(e);
      } else {
        UnwrittenIsNothing(e);
        NothingToRead();
      }
    }
  }

  /** After each attempt the server has read exactly what was written in full, and holds nothing. */
  predicate InSync(log: seq<Emission>) {
    && ServerReadAll(OnWire(log)) == View(Completed(log), [])
    && (log == [] || InSync(log[..|log| - 1]))
  }

  /** Client and server stay in step, at every moment of a run, exactly when no attempt tears a frame. */
  lemma {:induction false} InSyncIff(log: seq<Emission>)
    ensures InSync(log) <==> Intact(log)
  {
    hide ServerReadAll, Written, Torn, Completed, OnWire;
    if Intact(log) {
      IntactIsRead(log);
    }
    if log != [] {
      var before, e := log[..|log| - 1], log[|log| - 1];
      InSyncIff(before);
      assert before + [e] == log;
      OneMoreEmission(before, e);
      if Intact(before) && Torn(e) {
        IntactIsRead(before);
        ServerReadsOn(OnWire(before), Written(e));
        TornFrameIsHeld(e);
      }
    }
  }

  /** The jobs reported a success are the binary frames the server reads, in order, as long as no frame is torn. */
  lemma {:induction false} JobsAreCompleted(log: seq<Emission>)
    requires Honest(log) && AllJobsOk(log)
    ensures Binaries(Completed(log)) == Jobs(log)
  {
    if log != [] {
      var before, e := log[..|log| - 1], log[|log| - 1];
      assert before + [e] == log;
      JobsAreCompleted(before);
      OneMoreEmission(before, e);
      OneMoreReceived(Completed(before), Received(true, e.opcode, e.payload));
      hide Whole, Binaries, Completed, Jobs, OnWire, Written;
      NothingAppended(Jobs(before));
      NothingAppended(Completed(before));
    }
  }

  lemma NothingAppended<T>(s: seq<T>)
    ensures s + [] == s
  {
  }

  /** The failed write that ends a connection may still have gone out in full; nothing else is read beyond the jobs. */
  lemma JobsAreRead(log: seq<Emission>)
    requires Honest(log) && JobsOk(log) && Intact(log)
    ensures Jobs(log) <= Binaries(ServerReadAll(OnWire(log)).frames)
    ensures AllJobsOk(log) ==> Jobs(log) == Binaries(ServerReadAll(OnWire(log)).frames)
  {
    hide ServerReadAll, Completed, Binaries, Jobs, OnWire, Whole, Torn, Intact;
    IntactIsRead(log);
    if AllJobsOk(log) {
      JobsAreCompleted(log);
    } else {
      LastJobMayFail(log[..|log| - 1], log[|log| - 1]);
      assert log[..|log| - 1] + [log[|log| - 1]] == log;
    }
  }

  lemma LastJobMayFail(before: seq<Emission>, e: Emission)
    requires Honest(before) && AllJobsOk(before) && !e.ok
    ensures Jobs(before + [e]) <= Binaries(Completed(before + [e]))
  {
    hide *;
    OneMoreEmission(before, e);
    JobsAreCompleted(before);
    OneMoreReceived(Completed(before), Received(true, e.opcode, e.payload));
    NothingAppended(Jobs(before));
    NothingAppended(Completed(before));
  }

  lemma {:induction false} AllOkIsIntact(log: seq<Emission>)
    requires Honest(log) && AllOk(log)
    ensures Intact(log) && AllJobsOk(log)
  {
    if log != [] {
      AllOkIsIntact(log[..|log| - 1]);
    }
  }

  /** Whatever a server reads first carries the opcode of the first byte. */
  lemma FirstOpcode(wire: Bytes)
    requires ServerReadAll(wire).frames != []
    ensures |wire| > 0 && ServerReadAll(wire).frames[0].opcode == wire[0] as int % 16
  {
  }

  /**
   * A binary frame written in full right after a reply is read, after everything completed before it, exactly when the
   * reply was not torn.
   */
  lemma NextJobIsReadIff(before: seq<Emission>, reply: Emission, job: Emission)
    requires Intact(before) && reply.opcode != OP_BINARY
    requires job.opcode == OP_BINARY && Whole(job)
    ensures
      var log := before + [reply] + [job];
      ServerReadAll(OnWire(log)).frames == Completed(log) <==> !Torn(reply)
  {
    OneMoreEmission(before, reply);
    OneMoreEmission(before + [reply], job);
    var log := before + [reply] + [job];
    if !Torn(reply) {
      WholeIsNotTorn(job);
      IntactIsRead(log);
    } else {
      IntactIsRead(before);
      Associative(OnWire(before), Written(reply), Written(job));
      ServerReadsOn(OnWire(before), Written(reply) + Written(job));
      var seen := ServerReadAll(Written(reply) + Written(job)).frames;
      TornStart(reply);
      assert Completed(log) == Completed(before) + [Received(true, OP_BINARY, job.payload)];
      hide ServerReadAll, Written, OnWire, Completed, Whole, Torn;
      if seen != [] {
        FirstOpcode(Written(reply) + Written(job));
      }
      SameTail(Completed(before), seen, [Received(true, OP_BINARY, job.payload)]);
    }
  }

  lemma SameTail(a: seq<Received>, b: seq<Received>, c: seq<Received>)
    ensures a + b == a + c ==> b == c
  {
    if a + b == a + c {
      assert (a + b)[|a|..] == b && (a + c)[|a|..] == c;
    }
  }

  lemma WholeIsNotTorn(e: Emission)
    requires Whole(e)
    ensures !Torn(e)
  {
  }

  lemma TornStart(e: Emission)
    requires Torn(e)
    ensures |Written(e)| > 0 && Written(e)[0] as int % 16 == e.opcode
  {
  }

  const CUT_PONG: Emission := Emission(OP_PONG, [1, 2, 3, 4], (0, 0, 0, 0), 6, false)
  const LOST_JOB: Emission := Emission(OP_BINARY, [7], (0, 0, 0, 0), 7, true)

  lemma CutPongWire() returns (last: byte)
    ensures Torn(CUT_PONG) && !Whole(CUT_PONG) && Whole(LOST_JOB)
    ensures Written(CUT_PONG) == [138, 132, 0, 0, 0, 0]
    ensures Written(LOST_JOB) == [130, 129, 0, 0, 0, 0, last]
    ensures CUT_PONG.opcode == OP_PONG && !CUT_PONG.ok && LOST_JOB.opcode == OP_BINARY && LOST_JOB.ok
    ensures CUT_PONG.payload == [1, 2, 3, 4] && LOST_JOB.payload == [7] && OP_PONG != OP_BINARY
  {
    ClientFrameRoundTrip(OP_PONG, CUT_PONG.payload, CUT_PONG.mask, []);
    ClientFrameRoundTrip(OP_BINARY, LOST_JOB.payload, LOST_JOB.mask, []);
    MaskedLength([7], (0, 0, 0, 0));
    last := Masked([7], (0, 0, 0, 0))[0];
    hide Masked;
    assert LengthBytes(4, true) == [132] && LengthBytes(1, true) == [129];
    assert Masked([7], (0, 0, 0, 0)) == [last];
    assert FrameOf(LOST_JOB) == [130, 129, 0, 0, 0, 0, last];
    assert FrameOf(CUT_PONG)[..6] == [138, 132, 0, 0, 0, 0];
  }

  /** The server takes the start of the job for the payload of the pong, and cannot make anything of the rest. */
  lemma OnlyPongIsRead(last: byte)
    ensures Binaries(ServerReadAll([138, 132, 0, 0, 0, 0] + [130, 129, 0, 0, 0, 0, last]).frames) == []
  {
    var wire: Bytes := [138, 132, 0, 0, 0, 0] + [130, 129, 0, 0, 0, 0, last];
    hide Masked;
    assert wire[..2] == [138, 132];
    var u := ServerRead(wire).value;
    assert u.opcode == OP_PONG && u.used == 10;
    assert wire[10..] == [0, 0, last];
    assert ServerReadAll(wire[10..]).frames == [];
    var pong := Received(u.fin, u.opcode, u.payload);
    assert ServerReadAll(wire).frames == [pong];
    assert [pong][..0] == [];
  }

  /**
   * The run in which it goes wrong: a pong cut short after its header, then a job reported a success and never read.
   */
  lemma CutPongHidesJob()
    ensures
      var log := [CUT_PONG, LOST_JOB];
      && Honest(log) && AllJobsOk(log) && Jobs(log) == [[7]]
      && Binaries(ServerReadAll(OnWire(log)).frames) == []
  {
    hide *;
    var last := CutPongWire();
    TwoEmissions(CUT_PONG, LOST_JOB);
    OnlyPongIsRead(last);
  }

  lemma TwoEmissions(a: Emission, b: Emission)
    requires !Whole(a) && !a.ok && a.opcode == OP_PONG && Whole(b) && b.ok && b.opcode == OP_BINARY
    ensures
      var log := [a, b];
      && OnWire(log) == Written(a) + Written(b) && Honest(log) && AllJobsOk(log) && JobsOk(log)
      && Jobs(log) == [b.payload] && Pongs(log) == [a.payload]
  {
    assert [] + [a] + [b] == [a, b] && [] + [a] == [a];
    hide Written, Whole;
    OneMoreEmission([], a);
    OneMoreEmission([] + [a], b);
    assert OnWire([a]) == Written(a) by {
      assert OnWire([]) == [];
    }
  }
}
