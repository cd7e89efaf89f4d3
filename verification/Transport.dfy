/** The transport worker: one socket thread, one executor, a bounded event channel and a bounded write queue. */
module Transport {
  import opened Prelude
  import opened Sockets
  import opened WsCodec
  import opened WebSocket
  import opened Outbound

  datatype Reason = ServerClose(info: CloseInfo) | ReadError | Unknown

  datatype Event = Connected | DataReceived(data: Bytes) | Disconnected(reason: Reason)

  datatype WriteJob = WriteJob(id: nat, data: Payload)

  /** What the sender of a job can learn of it: still awaited, written or failed, or abandoned with the queue. */
  datatype Completion = Awaited | Finished(ok: bool) | Abandoned

  datatype Submission = Accepted(id: nat) | QueueFull | QueueClosed

  datatype ForwardProgress = Ready | Full | Gone

  /** The channels and flags the two sides share; every method is one step of one side. */
  class Link {
    /** Bound of the event channel; unbounded where there is PSRAM. */
    const capacity: Option<nat>
    const queueCap: nat

    var events: seq<Event>
    var receiverOpen: bool
    var queue: seq<WriteJob>
    var queueAlive: bool
    var shutdown: bool

    /** The completion of each accepted job, by its number. */
    var completions: seq<Completion>

    /** Payloads of all accepted jobs, in the order of submission. */
    ghost var submitted: seq<Payload>

    /** How many jobs the worker has taken from the queue, and whether it is writing the last of them. */
    ghost var taken: nat
    ghost var writing: bool

    /** Payloads whose frames were written, in the order of writing. */
    ghost var wrote: seq<Payload>

    /** All events ever put into the channel, and those the receiver has taken out. */
    ghost var sent: seq<Event>
    ghost var received: seq<Event>

    /** How often an event found the channel full. */
    ghost var fulls: nat

    ghost function Performed(): nat
      reads this
      requires writing ==> taken > 0
    {
      if writing then taken - 1 else taken
    }

    ghost predicate EventsOk()
      reads this
    {
      && received + events == sent
      && (capacity.Some? ==> 0 < capacity.value && |events| <= capacity.value)
    }

    /** The queue holds exactly the jobs not yet taken, in order. */
    ghost predicate QueueOk()
      reads this
    {
      && taken <= |submitted| == |completions| && (writing ==> taken > 0)
      && if queueAlive
         then |queue| == |submitted| - taken && |queue| <= queueCap
              && forall i :: 0 <= i < |queue| ==> queue[i] == WriteJob(taken + i, submitted[taken + i])
         else queue == []
    }

    /** An awaited job is queued or being written; a job is reported written only if it was, and in order. */
    ghost predicate CompletionsOk()
      reads this
      requires QueueOk()
    {
      && |wrote| <= Performed() && wrote == submitted[..|wrote|]
      && (forall i :: 0 <= i < Performed() ==> completions[i] == Finished(i < |wrote|))
      && (writing ==> completions[taken - 1] == Awaited)
      && (forall i :: taken <= i < |completions| ==> completions[i] == if queueAlive then Awaited else Abandoned)
    }

    ghost predicate Valid()
      reads this
    {
      EventsOk() && QueueOk() && CompletionsOk()
    }

    predicate ChannelFull()
      reads this
    {
      capacity.Some? && |events| >= capacity.value
    }

    /** Some executor task is waiting for a write to be completed. */
    ghost predicate SomeoneAwaits()
      reads this
    {
      exists i :: 0 <= i < |completions| && completions[i] == Awaited
    }

    constructor (hasPsram: bool)
      ensures Valid() && receiverOpen && queueAlive && !shutdown && sent == [] && submitted == [] && !writing
      ensures taken == 0
      ensures wrote == [] && events == [] && queue == [] && completions == [] && fulls == 0
      ensures capacity == (if hasPsram then None else Some(1)) && queueCap == if hasPsram then 64 else 1
    {
      capacity := if hasPsram then None else Some(1);
      queueCap := if hasPsram then 64 else 1;
      events, receiverOpen, queue, queueAlive, shutdown, completions := [], true, [], true, false, [];
      submitted, taken, writing, wrote, sent, received, fulls := [], 0, false, [], [], [], 0;
    }

    // ----- Steps of the executor -----

    /** Enqueues without waiting; the write itself is awaited through the completion. */
    method Submit(data: Payload) returns (r: Submission)
      requires Valid()
      modifies this`queue, this`completions, this`submitted
      ensures Valid()
      ensures r.Accepted? <==> old(queueAlive) && old(|queue|) < queueCap
      ensures r.Accepted? ==>
                && r.id == old(|submitted|) && submitted == old(submitted) + [data]
                && completions == old(completions) + [Awaited]
      ensures !r.Accepted? ==> unchanged(this)
    {
      if !queueAlive {
        return QueueClosed;
      }
      if |queue| >= queueCap {
        return QueueFull;
      }
      var id := |completions|;
      queue := queue + [WriteJob(id, data)];
      completions := completions + [Awaited];
      submitted := submitted + [data];
      return Accepted(id);
    }

    /**
     * What an awaiting sender is told: success only for a frame that was written after all those submitted before it.
     */
    method Poll(id: nat) returns (r: Completion)
      requires Valid() && id < |submitted|
      ensures r == Finished(true) <==> id < |wrote|
      ensures r == Finished(true) ==> wrote[..id + 1] == submitted[..id + 1]
      ensures r == Finished(false) <==> |wrote| <= id < Performed()
      ensures r == Abandoned <==> id >= taken && !queueAlive
      ensures r == Awaited ==>
                (queueAlive && exists i :: 0 <= i < |queue| && queue[i].id == id) || (writing && id == taken - 1)
    {
      r := completions[id];
      if r == Awaited && id >= taken {
        assert queue[id - taken].id == id;
      }
      if r == Finished(true) {
        assert id < Performed();
        assert submitted[..|wrote|][..id + 1] == submitted[..id + 1];
      }
    }

    method Receive() returns (event: Option<Event>)
      requires Valid()
      modifies this`events, this`received
      ensures Valid()
      ensures event == if old(events) == [] then None else Some(old(events)[0])
      ensures events == if old(events) == [] then [] else old(events)[1..]
    {
      if events == [] {
        return None;
      }
      event := Some(events[0]);
      received, events := received + [events[0]], events[1..];
    }

    /** Any number of steps of the executor, in any order. */
    method Executor()
      requires Valid()
      modifies this`queue, this`completions, this`submitted, this`events, this`received, this`receiverOpen,
               this`shutdown
      ensures Valid()
      ensures old(submitted) <= submitted
      ensures |events| <= old(|events|)
      ensures (!old(receiverOpen) ==> !receiverOpen) && (old(shutdown) ==> shutdown)
      ensures !queueAlive ==> completions == old(completions)
    {
      var steps: int := *;
      while steps > 0
        invariant Valid() && old(submitted) <= submitted && |events| <= old(|events|)
        invariant (!old(receiverOpen) ==> !receiverOpen) && (old(shutdown) ==> shutdown)
        invariant !queueAlive ==> completions == old(completions)
      {
        hide Link.CompletionsOk, Link.QueueOk, Link.EventsOk;
        steps := steps - 1;
        var kind: int := *;
        if kind == 0 {
          var data: Payload := *;
          var submission := Submit(data);
        } else if kind == 1 {
          var event := Receive();
        } else if kind == 2 {
          CloseReceiver();
        } else {
          RequestShutdown();
        }
      }
    }

    method CloseReceiver()
      requires Valid()
      modifies this`receiverOpen
      ensures Valid() && !receiverOpen
    {
      receiverOpen := false;
    }

    method RequestShutdown()
      requires Valid()
      modifies this`shutdown
      ensures Valid() && shutdown
    {
      shutdown := true;
    }

    // ----- Steps of the worker -----

    method TryTake() returns (job: Option<WriteJob>)
      requires Valid() && queueAlive && !writing
      modifies this`queue, this`taken, this`writing
      ensures Valid()
      ensures job.None? ==> old(queue) == [] && unchanged(this)
      ensures job.Some? ==>
                writing && taken == old(taken) + 1 && job.value == WriteJob(old(taken), submitted[old(taken)])
    {
      if queue == [] {
        return None;
      }
      job := Some(queue[0]);
      queue, taken, writing := queue[1..], taken + 1, true;
    }

    /** Resolves the job being written. */
    method Complete(id: nat, ok: bool)
      requires Valid() && writing && id == taken - 1 && wrote == submitted[..id]
      modifies this`completions, this`writing, this`wrote
      ensures Valid() && !writing
      ensures wrote == if ok then submitted[..taken] else old(wrote)
    {
      completions := completions[id := Finished(ok)];
      writing := false;
      if ok {
        wrote := submitted[..taken];
      }
    }

    /** Dropping the queue abandons every job in it, which wakes its sender with an error. */
    method DropQueue()
      requires Valid() && !writing
      modifies this`queue, this`queueAlive, this`completions
      ensures Valid() && !queueAlive && !SomeoneAwaits()
    {
      var first := if queue == [] then |completions| else queue[0].id;
      if queueAlive {
        completions := completions[..first] + seq(|queue|, _ => Abandoned);
      }
      queue, queueAlive := [], false;
    }

    /** Puts an event into the channel if there is room. */
    method TrySend(event: Event) returns (r: ForwardProgress)
      requires Valid()
      modifies this`events, this`sent, this`fulls
      ensures Valid() && fulls == old(fulls) + if r == Full then 1 else 0
      ensures r == if !receiverOpen then Gone else if old(ChannelFull()) then Full else Ready
      ensures if r == Ready then sent == old(sent) + [event] && events == old(events) + [event]
              else sent == old(sent) && events == old(events)
    {
      if !receiverOpen {
        return Gone;
      }
      if ChannelFull() {
        fulls := fulls + 1;
        return Full;
      }
      events, sent := events + [event], sent + [event];
      return Ready;
    }

    /**
     * Waits until the receiver makes room or goes away. The worker may wait here only if nobody waits for the worker:
     * that is the absence of a circular wait.
     */
    method SendBlocking(event: Event)
      requires Valid()
      requires ChannelFull() && receiverOpen ==> !SomeoneAwaits() && !queueAlive
      modifies this`events, this`sent, this`received, this`receiverOpen, this`fulls
      ensures Valid() && fulls == old(fulls)
      ensures !old(receiverOpen) ==> !receiverOpen
      ensures sent == old(sent) + if receiverOpen then [event] else []
    {
      if ChannelFull() && receiverOpen {
        var leaves: bool := *;
        if leaves {
          CloseReceiver();
        } else {
          var event := Receive();
        }
      }
      var progress := TrySend(event);
    }
  }

  /** The events that the binary messages among `frames` give rise to, in order. */
  function Datas(frames: seq<Frame>): seq<Event> {
    if frames == [] then []
    else
      var last := frames[|frames| - 1];
      Datas(frames[..|frames| - 1]) + if last.Binary? then [DataReceived(last.data)] else []
  }

  lemma OneMoreFrame(frames: seq<Frame>, frame: Frame)
    ensures Datas(frames + [frame]) == Datas(frames) + if frame.Binary? then [DataReceived(frame.data)] else []
  {
    assert (frames + [frame])[..|frames|] == frames;
  }

  function AsSeq(pending: Option<Event>): seq<Event> {
    if pending.Some? then [pending.value] else []
  }

  /** Tries the retained event; a full channel leaves it retained, a closed one loses it. */
  method ForwardPending(link: Link, pending: Option<Event>) returns (progress: ForwardProgress, rest: Option<Event>)
    requires link.Valid()
    modifies link`events, link`sent, link`fulls
    ensures link.Valid() && link.fulls == old(link.fulls) + if progress == Full then 1 else 0
    ensures progress
            == if pending.None? then Ready
               else if !link.receiverOpen then Gone
               else if old(link.ChannelFull()) then Full else Ready
    ensures progress == Ready ==> rest == None && link.sent == old(link.sent) + AsSeq(pending)
    ensures progress == Full ==> rest == pending && link.sent == old(link.sent)
    ensures progress == Gone ==> rest == None && !link.receiverOpen && link.sent == old(link.sent)
  {
    if pending.None? {
      return Ready, None;
    }
    progress := link.TrySend(pending.value);
    rest := if progress == Full then pending else None;
  }

  /**
   * What has gone out since the upgrade: the bytes before it, the write faults before it, and every frame attempted.
   */
  datatype Outbox = Outbox(base: Bytes, faults: nat, log: seq<Emission>)

  /** The stream holds what the log says, and without a fault every frame of the log was written in full. */
  ghost predicate Accounted(stream: Socket, box: Outbox)
    reads stream
  {
    && stream.sent == box.base + OnWire(box.log) && Honest(box.log)
    && stream.writeFaults >= box.faults && (stream.writeFaults == box.faults ==> AllOk(box.log))
  }

  /** A write, successful or not, as an entry of the log. */
  lemma EmissionFor(before: Bytes, after: Bytes, opcode: Opcode, payload: Payload, mask: Mask, ok: bool)
    returns (e: Emission)
    requires before <= after <= before + ClientFrame(opcode, payload, mask)
    requires ok ==> after == before + ClientFrame(opcode, payload, mask)
    ensures e.opcode == opcode && e.payload == payload && e.ok == ok && after == before + Written(e)
    ensures (ok ==> Whole(e))
  {
    hide ClientFrame;
    var frame := ClientFrame(opcode, payload, mask);
    e := Emission(opcode, payload, mask, |after| - |before|, ok);
    assert after == before + after[|before|..];
    assert after[|before|..] == (before + frame)[|before|..|after|] == frame[..e.cut];
  }

  /** Sends one frame and enters the attempt into the log. */
  method Emit(ws: WsClient, opcode: Opcode, payload: Payload, ghost before: Outbox)
    returns (ok: bool, ghost box: Outbox, ghost e: Emission)
    requires Accounted(ws.stream, before) && (opcode >= OP_CLOSE ==> |payload| <= MAX_CONTROL_PAYLOAD)
    modifies ws.stream`sent, ws.stream`writeFaults
    ensures Accounted(ws.stream, box) && box == before.(log := before.log + [e])
    ensures e.opcode == opcode && e.payload == payload && e.ok == ok
  {
    hide ClientFrame, OnWire, Honest, AllOk, Written, Whole;
    ghost var start := ws.stream.sent;
    var r, mask := ws.SendFrame(opcode, payload);
    e := EmissionFor(start, ws.stream.sent, opcode, payload, mask, r.Ok?);
    OneMoreEmission(before.log, e);
    Associative(before.base, OnWire(before.log), Written(e));
    return r.Ok?, before.(log := before.log + [e]), e;
  }

  /** Writes a job's frame whether or not anybody still waits for it, then resolves it. */
  method Perform(link: Link, ws: WsClient, job: WriteJob, ghost before: Outbox)
    returns (failed: bool, ghost box: Outbox, ghost e: Emission)
    requires link.Valid() && link.writing && link.taken > 0
    requires job == WriteJob(link.taken - 1, link.submitted[link.taken - 1])
    requires link.wrote == link.submitted[..job.id] && Accounted(ws.stream, before)
    modifies link`queue, link`completions, link`submitted, link`events, link`received, link`receiverOpen, link`shutdown,
             link`writing, link`wrote, ws.stream`sent, ws.stream`writeFaults
    ensures link.Valid() && !link.writing && old(link.submitted) <= link.submitted
    ensures |link.events| <= old(|link.events|)
    ensures (!old(link.receiverOpen) ==> !link.receiverOpen) && (old(link.shutdown) ==> link.shutdown)
    ensures link.wrote == if failed then old(link.wrote) else link.submitted[..link.taken]
    ensures Accounted(ws.stream, box) && box == before.(log := before.log + [e])
    ensures e.opcode == OP_BINARY && e.payload == job.data && e.ok == !failed
  {
    hide Accounted;
    var ok;
    ok, box, e := Emit(ws, OP_BINARY, job.data, before);
    link.Executor();
    link.Complete(job.id, ok);
    failed := !ok;
  }

  /** What the worker keeps between two steps of its loop. */
  ghost predicate Running(link: Link)
    reads link
  {
    link.Valid() && link.queueAlive && !link.writing && link.wrote == link.submitted[..link.taken]
  }

  /** The jobs written are the binary frames of the log that were reported a success. */
  ghost predicate Booked(link: Link, stream: Socket, box: Outbox)
    reads link, stream
  {
    Accounted(stream, box) && Jobs(box.log) == link.wrote && JobsOk(box.log)
  }

  lemma JobBooked(wrote: seq<Payload>, now: seq<Payload>, log: seq<Emission>, e: Emission, data: Payload)
    requires Jobs(log) == wrote && AllJobsOk(log) && e.opcode == OP_BINARY && e.payload == data
    requires now == if e.ok then wrote + [data] else wrote
    ensures Jobs(log + [e]) == now && JobsOk(log + [e]) && (e.ok ==> AllJobsOk(log + [e]))
    ensures Pongs(log + [e]) == Pongs(log)
    ensures AllOk(log + [e]) ==> e.ok
  {
    OneMoreEmission(log, e);
    NothingAppended(Jobs(log));
    NothingAppended(Pongs(log));
  }

  lemma {:induction false} AllJobsAreJobs(log: seq<Emission>)
    requires AllJobsOk(log)
    ensures JobsOk(log)
  {
  }

  lemma ReplyBooked(log: seq<Emission>, e: Emission)
    requires AllJobsOk(log) && e.opcode != OP_BINARY
    ensures Jobs(log + [e]) == Jobs(log) && AllJobsOk(log + [e]) && JobsOk(log + [e])
    ensures Pongs(log + [e]) == Pongs(log) + if e.opcode == OP_PONG then [e.payload] else []
  {
    OneMoreEmission(log, e);
    NothingAppended(Jobs(log));
    AllJobsAreJobs(log + [e]);
  }

  datatype Progress = NoJob | WroteJob | JobFailed

  /** The books between two jobs. */
  ghost predicate Writing(link: Link, stream: Socket, box: Outbox)
    reads link, stream
  {
    Running(link) && Booked(link, stream, box) && AllJobsOk(box.log)
  }

  /** The next queued job, if there is one: its frame is written, and its sender told. */
  method WriteNext(link: Link, ws: WsClient, ghost before: Outbox) returns (progress: Progress, ghost box: Outbox)
    requires Writing(link, ws.stream, before)
    modifies link`queue, link`completions, link`submitted, link`events, link`received, link`receiverOpen, link`shutdown,
             link`taken, link`writing, link`wrote, ws.stream`sent, ws.stream`writeFaults
    ensures if progress == JobFailed
            then link.Valid() && !link.writing && Booked(link, ws.stream, box) && !AllOk(box.log)
            else Writing(link, ws.stream, box)
    ensures progress == NoJob ==> link.queue == [] && link.wrote == old(link.wrote)
    ensures progress == WroteJob ==> |link.wrote| == old(|link.wrote|) + 1
    ensures Pongs(box.log) == Pongs(before.log) && box.base == before.base && box.faults == before.faults
    ensures old(link.submitted) <= link.submitted && (!old(link.receiverOpen) ==> !link.receiverOpen)
    ensures old(link.shutdown) ==> link.shutdown
  {
    hide Link.CompletionsOk, Link.EventsOk, OnWire, Honest, AllOk, AllJobsOk, JobsOk, Jobs, Pongs;
    box := before;
    link.Executor();
    var job := link.TryTake();
    if job.None? {
      return NoJob, box;
    }
    ghost var wrote := link.wrote;
    ghost var e: Emission;
    var failed;
    failed, box, e := Perform(link, ws, job.value, box);
    JobBooked(wrote, link.wrote, before.log, e, job.value.data);
    return if failed then JobFailed else WroteJob, box;
  }

  lemma AllWritten(link: Link, stream: Socket, box: Outbox)
    requires Writing(link, stream, box) && link.queue == []
    ensures link.wrote == link.submitted
  {
  }

  /** Writes queued jobs until none is left, one fails, or `burst` have been written. */
  method DrainWrites(link: Link, ws: WsClient, burst: nat, ghost before: Outbox)
    returns (failed: bool, ghost box: Outbox)
    requires Writing(link, ws.stream, before)
    modifies link`queue, link`completions, link`submitted, link`events, link`received, link`receiverOpen, link`shutdown,
             link`taken, link`writing, link`wrote, ws.stream`sent, ws.stream`writeFaults
    ensures if failed then link.Valid() && !link.writing && Booked(link, ws.stream, box) && !AllOk(box.log)
            else Writing(link, ws.stream, box)
    ensures !failed ==> |link.wrote| >= old(|link.submitted|) || |link.wrote| == old(|link.wrote|) + burst
    ensures Pongs(box.log) == Pongs(before.log) && box.base == before.base && box.faults == before.faults
    ensures old(link.submitted) <= link.submitted && (!old(link.receiverOpen) ==> !link.receiverOpen)
    ensures old(link.shutdown) ==> link.shutdown
  {
    box := before;
    hide *;
    for i := 0 to burst
      invariant |link.wrote| == old(|link.wrote|) + i
      invariant Writing(link, ws.stream, box) && old(link.submitted) <= link.submitted
      invariant (!old(link.receiverOpen) ==> !link.receiverOpen) && (old(link.shutdown) ==> link.shutdown)
      invariant Pongs(box.log) == Pongs(before.log) && box.base == before.base && box.faults == before.faults
    {
      hide *;
      var progress;
      progress, box := WriteNext(link, ws, box);
      if progress == JobFailed {
        return true, box;
      } else if progress == NoJob {
        AllWritten(link, ws.stream, box);
        return false, box;
      }
    }
    return false, box;
  }

  datatype Exit = StillRunning | ConnectFailed | ShutDown | WriteFailed | ReceiverGone | ServerClosed
      | ReadFailed(error: ReadError)

  /** How the story ends when the receiver stayed to hear it. */
  function Farewell(exit: Exit, seen: seq<Frame>): Reason {
    match exit
    case ServerClosed =>
      if seen != [] && seen[|seen| - 1].Close? then ServerClose(seen[|seen| - 1].info) else Unknown
    case ConnectFailed | WriteFailed | ReadFailed(_) => ReadError
    case _ => Unknown
  }

  /**
   * What a receiver that stayed is told in all: `Connected`, the binary messages of the frames read so far in their
   * order but for those `missing`, and one `Disconnected` at the end. Only a shutdown or a failed write can lose a
   * message, the one that was retained.
   */
  ghost predicate Narrated(link: Link, exit: Exit, seen: seq<Frame>, missing: seq<Event>)
    reads link
  {
    && |missing| <= 1
    && (exit.ServerClosed? || exit.ReadFailed? ==> missing == [])
    && (link.receiverOpen ==>
          exists told ::
            && told + missing == Datas(seen)
            && link.sent == [Connected] + told + [Disconnected(Farewell(exit, seen))])
  }

  /** Ends the run: the queue goes first, so that nobody waits for the worker when it waits for the receiver. */
  method Leave(link: Link, exit: Exit, ghost seen: seq<Frame>, ghost told: seq<Event>, ghost missing: seq<Event>,
               reason: Reason)
    requires link.Valid() && !link.writing && reason == Farewell(exit, seen)
    requires |missing| <= 1 && (exit.ServerClosed? || exit.ReadFailed? ==> missing == [])
    requires told + missing == Datas(seen)
    requires link.receiverOpen ==> link.sent == [Connected] + told
    modifies link`queue, link`queueAlive, link`completions, link`events, link`sent, link`received, link`receiverOpen,
             link`fulls
    ensures link.Valid() && !link.queueAlive && !link.SomeoneAwaits() && Narrated(link, exit, seen, missing)
    ensures link.fulls == old(link.fulls) && (!old(link.receiverOpen) ==> !link.receiverOpen)
  {
    hide Link.CompletionsOk, Link.QueueOk, Link.EventsOk, Datas, Farewell;
    link.DropQueue();
    link.SendBlocking(Disconnected(reason));
  }

  /** What the receiver has been told so far, and what is retained for it. */
  ghost predicate ToldSoFar(link: Link, pending: Option<Event>, seen: seq<Frame>)
    reads link
  {
    && (pending.Some? ==> pending.value.DataReceived?)
    && (link.receiverOpen ==> link.sent + AsSeq(pending) == [Connected] + Datas(seen))
  }

  /** Nothing is read after a close frame. */
  predicate NoClose(frames: seq<Frame>) {
    forall i :: 0 <= i < |frames| ==> !frames[i].Close?
  }

  /** The frames read so far and those the one-shot parser finds in what is left are all of them. */
  ghost predicate Reading(ws: WsClient, all: Parsed, seen: seq<Frame>)
    reads ws, ws.header, ws.stream
  {
    ws.Valid() && all == Parsed(seen + ws.Future().frames, ws.Future().failed) && NoClose(seen)
  }

  const NORMAL_CLOSURE: Bytes := [3, 232]

  /** The payloads of the pings among `frames` that can be answered, in order. */
  function Pings(frames: seq<Frame>): seq<Bytes> {
    if frames == [] then []
    else
      var last := frames[|frames| - 1];
      Pings(frames[..|frames| - 1]) + if last.Ping? && |last.data| <= MAX_CONTROL_PAYLOAD then [last.data] else []
  }

  lemma OneMorePing(frames: seq<Frame>, frame: Frame)
    ensures Pings(frames + [frame])
            == Pings(frames) + if frame.Ping? && |frame.data| <= MAX_CONTROL_PAYLOAD then [frame.data] else []
  {
    assert (frames + [frame])[..|frames|] == frames;
  }

  /** The books of a worker that may go on: every job so far written, every ping so far answered. */
  ghost predicate Balanced(link: Link, stream: Socket, box: Outbox, seen: seq<Frame>)
    reads link, stream
  {
    Booked(link, stream, box) && AllJobsOk(box.log) && Pongs(box.log) == Pings(seen)
  }

  predicate SaysGoodbye(log: seq<Emission>) {
    log != [] && log[|log| - 1].opcode == OP_CLOSE && log[|log| - 1].payload == NORMAL_CLOSURE
  }

  /** Sends a control frame of the worker's own, whatever becomes of it. */
  method Reply(link: Link, ws: WsClient, opcode: Opcode, payload: Payload, ghost before: Outbox)
    returns (ghost box: Outbox)
    requires Booked(link, ws.stream, before) && AllJobsOk(before.log)
    requires OP_CLOSE <= opcode && |payload| <= MAX_CONTROL_PAYLOAD
    modifies ws.stream`sent, ws.stream`writeFaults
    ensures Booked(link, ws.stream, box) && AllJobsOk(box.log) && box.base == before.base && box.faults == before.faults
    ensures Pongs(box.log) == Pongs(before.log) + if opcode == OP_PONG then [payload] else []
    ensures |box.log| == |before.log| + 1 && before.log <= box.log
    ensures box.log != [] && box.log[|box.log| - 1].opcode == opcode && box.log[|box.log| - 1].payload == payload
  {
    hide Accounted, AllJobsOk, JobsOk, Jobs, Pongs;
    var ok;
    ghost var e: Emission;
    ok, box, e := Emit(ws, opcode, payload, before);
    ReplyBooked(before.log, e);
  }

  /** What a frame makes the worker do: a binary message is retained, a ping is answered, a close ends the run. */
  method Heed(link: Link, ws: WsClient, frame: Frame, ghost before: seq<Frame>, ghost outbox: Outbox)
    returns (exit: Exit, pending: Option<Event>, reason: Reason, ghost box: Outbox)
    requires Balanced(link, ws.stream, outbox, before)
    modifies ws.stream`sent, ws.stream`writeFaults
    ensures Balanced(link, ws.stream, box, before + [frame])
    ensures box.base == outbox.base && box.faults == outbox.faults
    ensures exit == if frame.Close? then ServerClosed else StillRunning
    ensures reason == if frame.Close? then ServerClose(frame.info) else Unknown
    ensures frame.Close? ==> SaysGoodbye(box.log)
    ensures AsSeq(pending) == if frame.Binary? then [DataReceived(frame.data)] else []
  {
    hide Pongs, Pings, Jobs, JobsOk, AllJobsOk, OnWire, Honest, AllOk;
    exit, pending, reason, box := StillRunning, None, Unknown, outbox;
    OneMorePing(before, frame);
    NothingAppended(Pings(before));
    NothingAppended(Pongs(outbox.log));
    if frame.Binary? {
      pending := Some(DataReceived(frame.data));
    } else if frame.Ping? {
      if |frame.data| <= MAX_CONTROL_PAYLOAD {
        box := Reply(link, ws, OP_PONG, frame.data, outbox);
      }
    } else if frame.Close? {
      box := Reply(link, ws, OP_CLOSE, NORMAL_CLOSURE, outbox);
      exit, reason := ServerClosed, ServerClose(frame.info);
    }
  }

  /** One poll of the socket, when nothing is retained for the receiver. */
  method ReadStep(link: Link, ws: WsClient, ghost all: Parsed, ghost before: seq<Frame>, ghost outbox: Outbox)
    returns (exit: Exit, pending: Option<Event>, reason: Reason, ghost seen: seq<Frame>, ghost box: Outbox)
    requires Reading(ws, all, before) && Balanced(link, ws.stream, outbox, before)
    modifies ws, ws.header, ws.stream
    ensures exit.StillRunning? || exit.ServerClosed? || exit.ReadFailed?
    ensures exit.StillRunning? ==> Reading(ws, all, seen)
    ensures Balanced(link, ws.stream, box, seen) && box.base == outbox.base && box.faults == outbox.faults
    ensures exit.ServerClosed? ==> SaysGoodbye(box.log)
    ensures NoClose(before) && (exit.ServerClosed? ==> seen != [] && seen[..|seen| - 1] == before)
    ensures exit.ReadFailed? ==> seen == before
    ensures Datas(seen) == Datas(before) + AsSeq(pending) && (exit.StillRunning? || pending == None)
    ensures pending.Some? ==> pending.value.DataReceived?
    ensures !exit.StillRunning? ==> reason == Farewell(exit, seen)
    ensures exit.ServerClosed? ==> seen != [] && seen[|seen| - 1].Close? && seen <= all.frames
    ensures exit == ReadFailed(Protocol) ==> all == Parsed(seen, true)
    ensures exit == ReadFailed(Closed) ==> all == Parsed(seen, false)
    ensures exit == ReadFailed(Broken) ==> ws.stream.readFaults > old(ws.stream.readFaults)
    ensures ws.stream.readFaults >= old(ws.stream.readFaults)
    ensures !exit.StillRunning? ==> seen <= all.frames
    ensures exit.StillRunning? ==> |seen| + ws.stream.blocks == |before| + old(ws.stream.blocks) + 1
    ensures ws.stream.blocks >= old(ws.stream.blocks)
  {
    hide WsClient.Valid, Parse, Pongs, Pings, Jobs, JobsOk, AllJobsOk, OnWire, Honest, AllOk, SaysGoodbye;
    exit, pending, reason, seen, box := StillRunning, None, Unknown, before, outbox;
    var r := ws.ReadFrame();
    match r {
      case Blocked =>
      case Failed(error) =>
        exit, reason := ReadFailed(error), ReadError;
      case Done(frame) =>
        Associative(before, [frame], ws.Future().frames);
        OneMoreFrame(before, frame);
        seen := before + [frame];
        exit, pending, reason, box := Heed(link, ws, frame, before, outbox);
    }
  }

  /** What holds between two rounds of the worker's loop. */
  ghost predicate Between(link: Link, ws: WsClient, all: Parsed, pending: Option<Event>, seen: seq<Frame>, box: Outbox)
    reads link, ws, ws.header, ws.stream
  {
    Running(link) && Reading(ws, all, seen) && ToldSoFar(link, pending, seen) && Balanced(link, ws.stream, box, seen)
  }

  /** The reason for an exit shows: a flag, a closed receiver, a write that failed, or a frame that was read. */
  ghost predicate Justified(link: Link, all: Parsed, exit: Exit, seen: seq<Frame>, box: Outbox)
    reads link
  {
    && (exit.ShutDown? ==> link.shutdown)
    && (exit.ReceiverGone? ==> !link.receiverOpen)
    && (exit.WriteFailed? ==> !AllOk(box.log))
    && (exit.ServerClosed? ==> seen != [] && seen[|seen| - 1].Close?)
    && NoClose(if exit.ServerClosed? && seen != [] then seen[..|seen| - 1] else seen)
    && (exit == ReadFailed(Protocol) ==> all == Parsed(seen, true))
    && (exit == ReadFailed(Closed) ==> all == Parsed(seen, false))
    && (exit.ServerClosed? || exit.ShutDown? ==> SaysGoodbye(box.log))
  }

  /** What holds once the worker has left its loop for good. */
  ghost predicate Left(link: Link, stream: Socket, all: Parsed, exit: Exit, seen: seq<Frame>, missing: seq<Event>,
                       box: Outbox)
    reads link, stream
  {
    && link.Valid() && !link.queueAlive && !link.SomeoneAwaits()
    && Narrated(link, exit, seen, missing)
    && seen <= all.frames
    && Justified(link, all, exit, seen, box)
    && Booked(link, stream, box) && Pongs(box.log) == Pings(seen)
  }

  lemma SeenIsPrefix(ws: WsClient, all: Parsed, seen: seq<Frame>)
    requires Reading(ws, all, seen)
    ensures seen <= all.frames
  {
  }

  /** Splits what the frames amount to into what was told and what was retained. */
  lemma ToldAndRetained(sent: seq<Event>, pending: Option<Event>, datas: seq<Event>)
    requires sent + AsSeq(pending) == [Connected] + datas && (pending.Some? ==> pending.value.DataReceived?)
    ensures sent != [] && sent == [Connected] + sent[1..] && sent[1..] + AsSeq(pending) == datas
  {
    assert ([Connected] + datas)[0] == Connected;
    assert (sent + AsSeq(pending))[1..] == sent[1..] + AsSeq(pending);
  }

  /** Leaves with the retained event, if there is one, undelivered. */
  method Abandon(link: Link, exit: Exit, ghost pending: Option<Event>, ghost seen: seq<Frame>, reason: Reason)
    returns (ghost missing: seq<Event>)
    requires link.Valid() && !link.writing && reason == Farewell(exit, seen) && ToldSoFar(link, pending, seen)
    requires exit.ServerClosed? || exit.ReadFailed? ==> pending == None
    modifies link`queue, link`queueAlive, link`completions, link`events, link`sent, link`received, link`receiverOpen,
             link`fulls
    ensures link.Valid() && !link.queueAlive && !link.SomeoneAwaits() && Narrated(link, exit, seen, missing)
    ensures link.fulls == old(link.fulls) && (!old(link.receiverOpen) ==> !link.receiverOpen)
  {
    hide Link.CompletionsOk, Link.QueueOk, Link.EventsOk, Datas, Farewell, Narrated;
    ghost var told := Datas(seen);
    missing := [];
    if link.receiverOpen {
      ToldAndRetained(link.sent, pending, Datas(seen));
      told, missing := link.sent[1..], AsSeq(pending);
    }
    Leave(link, exit, seen, told, missing, reason);
  }

  /** Hands over the retained event, if there is one; without a receiver that ends the run. */
  method ForwardOrLeave(link: Link, ws: WsClient, retained: Option<Event>, ghost all: Parsed, ghost seen: seq<Frame>,
                        ghost box: Outbox)
    returns (progress: ForwardProgress, pending: Option<Event>, ghost missing: seq<Event>)
    requires Between(link, ws, all, retained, seen, box)
    modifies link
    ensures progress == if retained.None? then Ready
                        else if !old(link.receiverOpen) then Gone
                        else if old(link.ChannelFull()) then Full else Ready
    ensures progress != Gone ==> Between(link, ws, all, pending, seen, box)
    ensures progress == Ready ==> pending == None
    ensures progress == Gone ==> Left(link, ws.stream, all, ReceiverGone, seen, missing, box)
    ensures link.fulls == old(link.fulls) + if progress == Full then 1 else 0
    ensures (!old(link.receiverOpen) ==> !link.receiverOpen) && (old(link.shutdown) ==> link.shutdown)
    ensures link.submitted == old(link.submitted) && link.wrote == old(link.wrote)
  {
    hide Link.CompletionsOk, Link.QueueOk, Link.EventsOk, WsClient.Valid, Parse, Narrated, Datas, Accounted, AllJobsOk,
         JobsOk, Jobs, Pongs, Pings, AllOk, OnWire;
    missing := [];
    SeenIsPrefix(ws, all, seen);
    progress, pending := ForwardPending(link, retained);
    if progress == Gone {
      missing := Abandon(link, ReceiverGone, None, seen, Unknown);
    }
  }

  /** One poll of the socket, which a close frame or an error makes the last. */
  method ReadOrLeave(link: Link, ws: WsClient, ghost all: Parsed, ghost before: seq<Frame>, ghost outbox: Outbox)
    returns (exit: Exit, pending: Option<Event>, ghost seen: seq<Frame>, ghost missing: seq<Event>, ghost box: Outbox)
    requires Between(link, ws, all, None, before, outbox)
    modifies link, ws, ws.header, ws.stream
    ensures exit.StillRunning? || exit.ServerClosed? || exit.ReadFailed?
    ensures exit.StillRunning? ==> Between(link, ws, all, pending, seen, box)
    ensures !exit.StillRunning? ==> Left(link, ws.stream, all, exit, seen, missing, box)
    ensures box.base == outbox.base && box.faults == outbox.faults
    ensures (!old(link.receiverOpen) ==> !link.receiverOpen) && (old(link.shutdown) ==> link.shutdown)
    ensures exit == ReadFailed(Broken) ==> ws.stream.readFaults > old(ws.stream.readFaults)
    ensures ws.stream.readFaults >= old(ws.stream.readFaults)
    ensures ws.stream.blocks >= old(ws.stream.blocks) && link.fulls == old(link.fulls)
    ensures exit.StillRunning? ==> |seen| + ws.stream.blocks == |before| + old(ws.stream.blocks) + 1
    ensures link.submitted == old(link.submitted) && link.wrote == old(link.wrote)
  {
    hide Link.CompletionsOk, Link.QueueOk, Link.EventsOk, WsClient.Valid, Parse, Narrated, Datas, Accounted, AllJobsOk,
         JobsOk, Jobs, Pongs, Pings, AllOk, OnWire;
    missing := [];
    SeenIsPrefix(ws, all, before);
    var reason;
    exit, pending, reason, seen, box := ReadStep(link, ws, all, before, outbox);
    NothingAppended(link.sent);
    Associative([Connected], Datas(before), AsSeq(pending));
    if !exit.StillRunning? {
      missing := Abandon(link, exit, None, seen, reason);
    }
  }

  /** The retained event first; only when nothing is retained is the socket polled. */
  method ForwardThenRead(link: Link, ws: WsClient, retained: Option<Event>, ghost all: Parsed, ghost before: seq<Frame>,
                         ghost outbox: Outbox)
    returns (exit: Exit, pending: Option<Event>, ghost seen: seq<Frame>, ghost missing: seq<Event>, ghost box: Outbox)
    requires Between(link, ws, all, retained, before, outbox)
    modifies link, ws, ws.header, ws.stream
    ensures !exit.ConnectFailed? && !exit.ShutDown? && !exit.WriteFailed?
    ensures exit.StillRunning? ==> Between(link, ws, all, pending, seen, box)
    ensures !exit.StillRunning? ==> Left(link, ws.stream, all, exit, seen, missing, box)
    ensures box.base == outbox.base && box.faults == outbox.faults
    ensures (!old(link.receiverOpen) ==> !link.receiverOpen) && (old(link.shutdown) ==> link.shutdown)
    ensures retained.Some? && !old(link.receiverOpen) ==> exit == ReceiverGone
    ensures exit == ReadFailed(Broken) ==> ws.stream.readFaults > old(ws.stream.readFaults)
    ensures ws.stream.readFaults >= old(ws.stream.readFaults)
    ensures ws.stream.blocks >= old(ws.stream.blocks) && link.fulls >= old(link.fulls)
    ensures exit.StillRunning? ==>
              |seen| + ws.stream.blocks + link.fulls == |before| + old(ws.stream.blocks + link.fulls) + 1
    ensures link.submitted == old(link.submitted) && link.wrote == old(link.wrote)
  {
    hide *;
    seen, box := before, outbox;
    var progress;
    progress, pending, missing := ForwardOrLeave(link, ws, retained, all, before, outbox);
    if progress == Full {
      exit := StillRunning;
    } else if progress == Gone {
      exit := ReceiverGone;
    } else {
      exit, pending, seen, missing, box := ReadOrLeave(link, ws, all, before, outbox);
    }
  }

  /** The close frame first, then the farewell; what is retained for the receiver is given up. */
  method ShutDownNow(link: Link, ws: WsClient, ghost pending: Option<Event>, ghost all: Parsed, ghost seen: seq<Frame>,
                     ghost outbox: Outbox)
    returns (ghost missing: seq<Event>, ghost box: Outbox)
    requires Between(link, ws, all, pending, seen, outbox) && link.shutdown
    modifies link`queue, link`queueAlive, link`completions, link`events, link`sent, link`received, link`receiverOpen,
             link`fulls, ws.stream`sent, ws.stream`writeFaults
    ensures Left(link, ws.stream, all, ShutDown, seen, missing, box)
    ensures outbox.log <= box.log && |box.log| == |outbox.log| + 1
    ensures box.base == outbox.base && box.faults == outbox.faults
    ensures link.fulls == old(link.fulls) && (!old(link.receiverOpen) ==> !link.receiverOpen)
  {
    hide Link.CompletionsOk, Link.EventsOk, WsClient.Valid, Parse, Narrated, Datas, AllJobsOk, JobsOk,
         Jobs, Pongs, Pings, AllOk, OnWire, Honest;
    SeenIsPrefix(ws, all, seen);
    NothingAppended(Pongs(outbox.log));
    box := Reply(link, ws, OP_CLOSE, NORMAL_CLOSURE, outbox);
    missing := Abandon(link, ShutDown, pending, seen, Unknown);
  }

  /** The executor acts while the worker does not. */
  method Meanwhile(link: Link, ws: WsClient, ghost pending: Option<Event>, ghost all: Parsed, ghost seen: seq<Frame>,
                   ghost box: Outbox)
    requires Between(link, ws, all, pending, seen, box)
    modifies link`queue, link`completions, link`submitted, link`events, link`received, link`receiverOpen, link`shutdown
    ensures Between(link, ws, all, pending, seen, box) && old(link.submitted) <= link.submitted
    ensures (!old(link.receiverOpen) ==> !link.receiverOpen) && (old(link.shutdown) ==> link.shutdown)
  {
    hide Link.CompletionsOk, Link.EventsOk, WsClient.Valid, Parse, Datas, Accounted, AllJobsOk, JobsOk, Jobs, Pongs,
         Pings;
    link.Executor();
  }

  /** The write queue; a write that fails ends the run. */
  method WriteJobs(link: Link, ws: WsClient, ghost pending: Option<Event>, burst: nat, ghost all: Parsed,
                   ghost seen: seq<Frame>,
                   ghost outbox: Outbox)
    returns (failed: bool, ghost missing: seq<Event>, ghost box: Outbox)
    requires Between(link, ws, all, pending, seen, outbox)
    modifies link, ws.stream`sent, ws.stream`writeFaults
    ensures failed ==> Left(link, ws.stream, all, WriteFailed, seen, missing, box)
    ensures !failed ==> Between(link, ws, all, pending, seen, box)
    ensures !failed ==> |link.wrote| >= old(|link.submitted|) || |link.wrote| == old(|link.wrote|) + burst
    ensures box.base == outbox.base && box.faults == outbox.faults && link.fulls == old(link.fulls)
    ensures old(link.submitted) <= link.submitted && (!old(link.receiverOpen) ==> !link.receiverOpen)
    ensures old(link.shutdown) ==> link.shutdown
  {
    hide Link.CompletionsOk, Link.EventsOk, WsClient.Valid, Parse, Narrated, Datas, Accounted, AllJobsOk, JobsOk,
         Jobs, Pongs, Pings, AllOk;
    missing := [];
    SeenIsPrefix(ws, all, seen);
    failed, box := DrainWrites(link, ws, burst, outbox);
    if failed {
      missing := Abandon(link, WriteFailed, pending, seen, ReadError);
    }
  }

  /** One round: shutdown, writes, the retained event, and one poll of the socket, in this order. */
  method Round(link: Link, ws: WsClient, retained: Option<Event>, burst: nat, ghost all: Parsed,
               ghost before: seq<Frame>, ghost outbox: Outbox)
    returns (exit: Exit, pending: Option<Event>, ghost seen: seq<Frame>, ghost missing: seq<Event>, ghost box: Outbox)
    requires Between(link, ws, all, retained, before, outbox)
    modifies link, ws, ws.header, ws.stream
    ensures !exit.ConnectFailed? && (exit.StillRunning? ==> Between(link, ws, all, pending, seen, box))
    ensures !exit.StillRunning? ==> Left(link, ws.stream, all, exit, seen, missing, box)
    ensures box.base == outbox.base && box.faults == outbox.faults
    ensures (!old(link.receiverOpen) ==> !link.receiverOpen) && (old(link.shutdown) ==> link.shutdown)
    ensures old(link.shutdown) ==> exit == ShutDown
    ensures exit == ShutDown ==>
              && seen == before && link.wrote == old(link.wrote)
              && outbox.log <= box.log && |box.log| == |outbox.log| + 1
    ensures retained.Some? && !old(link.receiverOpen) ==> !exit.StillRunning?
    ensures exit == ReadFailed(Broken) ==> ws.stream.readFaults > old(ws.stream.readFaults)
    ensures ws.stream.readFaults >= old(ws.stream.readFaults)
    ensures ws.stream.blocks >= old(ws.stream.blocks) && link.fulls >= old(link.fulls)
    ensures exit.StillRunning? ==>
              |seen| + ws.stream.blocks + link.fulls == |before| + old(ws.stream.blocks + link.fulls) + 1
    ensures exit.StillRunning? ==> |link.wrote| >= old(|link.submitted|) || |link.wrote| == old(|link.wrote|) + burst
    ensures old(link.submitted) <= link.submitted
  {
    hide *;
    pending, seen, missing, box := retained, before, [], outbox;
    Meanwhile(link, ws, pending, all, seen, box);
    if link.shutdown {
      exit := ShutDown;
      missing, box := ShutDownNow(link, ws, pending, all, seen, box);
      return;
    }
    var failed;
    failed, missing, box := WriteJobs(link, ws, pending, burst, all, seen, box);
    if failed {
      exit := WriteFailed;
      return;
    }
    exit, pending, seen, missing, box := ForwardThenRead(link, ws, pending, all, seen, box);
  }

  lemma NothingSent(link: Link, stream: Socket, box: Outbox)
    requires box == Outbox(stream.sent, stream.writeFaults, []) && link.wrote == []
    ensures Balanced(link, stream, box, [])
  {
    NothingAppended(stream.sent);
  }

  /**
   * What holds of a run that goes on: a receiver that stayed has been told `Connected` and every binary message of the
   * frames read so far, in their order, but for the last where that is retained; and those frames come first of all.
   */
  ghost predicate Ongoing(link: Link, stream: Socket, all: Parsed, seen: seq<Frame>, missing: seq<Event>, box: Outbox)
    reads link, stream
  {
    && link.Valid() && |missing| <= 1
    && (link.receiverOpen ==> link.sent + missing == [Connected] + Datas(seen))
    && seen <= all.frames
    && Balanced(link, stream, box, seen)
  }

  lemma BetweenIsOngoing(link: Link, ws: WsClient, all: Parsed, pending: Option<Event>, seen: seq<Frame>, box: Outbox)
    requires Between(link, ws, all, pending, seen, box)
    ensures Ongoing(link, ws.stream, all, seen, AsSeq(pending), box)
  {
    hide Balanced, Datas, WsClient.Valid;
  }

  /** The first event; nothing is read or written yet. */
  method Announce(link: Link, ws: WsClient, ghost all: Parsed) returns (ghost box: Outbox)
    requires Running(link) && link.wrote == [] && link.sent == [] && link.events == [] && ws.Valid()
    requires all == ws.Future()
    modifies link`events, link`sent, link`received, link`receiverOpen, link`fulls
    ensures Between(link, ws, all, None, [], box) && link.fulls == old(link.fulls)
    ensures box.log == [] && link.shutdown == old(link.shutdown)
    ensures box.base == ws.stream.sent && box.faults == ws.stream.writeFaults
  {
    hide Balanced, Link.CompletionsOk, WsClient.Bounded, ParseHead, Parse;
    box := Outbox(ws.stream.sent, ws.stream.writeFaults, []);
    link.SendBlocking(Connected);
    NothingSent(link, ws.stream, box);
    NothingReadYet(all);
  }

  lemma NothingReadYet(all: Parsed)
    ensures all == Parsed([] + all.frames, all.failed)
  {
  }

  /** All of the jobs there were have been written, or a full burst of them in every round. */
  ghost predicate KeepsPace(wrote: nat, jobs: nat, rounds: nat, burst: nat) {
    wrote >= jobs || wrote >= rounds * burst
  }

  lemma NoBurstYet(wrote: nat, jobs: nat, burst: nat)
    ensures KeepsPace(wrote, jobs, 0, burst)
  {
  }

  lemma OneMoreBurst(before: nat, after: nat, jobs: nat, rounds: nat, burst: nat)
    requires KeepsPace(before, jobs, rounds, burst) && (after >= jobs || after == before + burst)
    ensures KeepsPace(after, jobs, rounds + 1, burst)
  {
    assert (rounds + 1) * burst == rounds * burst + burst;
  }

  lemma BetweenIsReading(link: Link, ws: WsClient, all: Parsed, pending: Option<Event>, seen: seq<Frame>, box: Outbox)
    requires Between(link, ws, all, pending, seen, box)
    ensures Reading(ws, all, seen) && |seen| <= |all.frames|
  {
    SeenIsPrefix(ws, all, seen);
  }

  /** The rounds of the loop. */
  method Watch(link: Link, ws: WsClient, rounds: nat, burst: nat, ghost all: Parsed, ghost start: Outbox)
    returns (exit: Exit, ghost seen: seq<Frame>, ghost missing: seq<Event>, ghost box: Outbox)
    requires Between(link, ws, all, None, [], start)
    modifies link, ws, ws.header, ws.stream
    ensures !exit.ConnectFailed?
    ensures exit.StillRunning? ==>
              Ongoing(link, ws.stream, all, seen, missing, box) && Reading(ws, all, seen) && |seen| <= |all.frames|
    ensures exit.StillRunning? ==>
              rounds == |seen| + (ws.stream.blocks - old(ws.stream.blocks)) + (link.fulls - old(link.fulls))
    ensures exit.StillRunning? ==> KeepsPace(|link.wrote|, old(|link.submitted|), rounds, burst)
    ensures !exit.StillRunning? ==> Left(link, ws.stream, all, exit, seen, missing, box)
    ensures box.base == start.base && box.faults == start.faults
    ensures old(link.submitted) <= link.submitted
    ensures ws.stream.readFaults >= old(ws.stream.readFaults) && ws.stream.blocks >= old(ws.stream.blocks)
    ensures link.fulls >= old(link.fulls)
    ensures old(link.shutdown) && rounds > 0 ==> exit == ShutDown && seen == [] && |box.log| == |start.log| + 1
    ensures exit == ReadFailed(Broken) ==> ws.stream.readFaults > old(ws.stream.readFaults)
  {
    hide *;
    exit, seen, missing, box := StillRunning, [], [], start;
    var pending: Option<Event> := None;
    NoBurstYet(|link.wrote|, old(|link.submitted|), burst);
    for i := 0 to rounds
      invariant Between(link, ws, all, pending, seen, box)
      invariant box.base == start.base && box.faults == start.faults
      invariant ws.stream.readFaults >= old(ws.stream.readFaults) && ws.stream.blocks >= old(ws.stream.blocks)
      invariant old(link.shutdown) ==> link.shutdown && i == 0 && box == start
      invariant link.fulls >= old(link.fulls) && old(link.submitted) <= link.submitted
      invariant i == |seen| + (ws.stream.blocks - old(ws.stream.blocks)) + (link.fulls - old(link.fulls))
      invariant KeepsPace(|link.wrote|, old(|link.submitted|), i, burst)
    {
      hide *;
      ghost var wrote := |link.wrote|;
      exit, pending, seen, missing, box := Round(link, ws, pending, burst, all, seen, box);
      if !exit.StillRunning? {
        return;
      }
      OneMoreBurst(wrote, |link.wrote|, old(|link.submitted|), i, burst);
    }
    exit, missing := StillRunning, AsSeq(pending);
    BetweenIsOngoing(link, ws, all, pending, seen, box);
    BetweenIsReading(link, ws, all, pending, seen, box);
  }

  /**
   * The worker's loop over an open connection, watched for `rounds` rounds. Every round but the last reads a frame,
   * waits for the stream, or finds the channel full, so that enough rounds see the end. And every job there was at
   * the start is written, as fast as `burst` allows, while the run goes on.
   */
  method Serve(link: Link, ws: WsClient, rounds: nat, burst: nat)
    returns (exit: Exit, ghost seen: seq<Frame>, ghost missing: seq<Event>, ghost box: Outbox)
    requires Running(link) && link.wrote == [] && link.sent == [] && link.events == [] && ws.Valid()
    modifies link, ws, ws.header, ws.stream
    ensures !exit.ConnectFailed?
    ensures exit.StillRunning? ==>
              Ongoing(link, ws.stream, old(ws.Future()), seen, missing, box) && Reading(ws, old(ws.Future()), seen)
    ensures exit.StillRunning? ==>
              rounds == |seen| + (ws.stream.blocks - old(ws.stream.blocks)) + (link.fulls - old(link.fulls))
    ensures exit.StillRunning? ==> KeepsPace(|link.wrote|, old(|link.submitted|), rounds, burst)
    ensures !exit.StillRunning? ==> Left(link, ws.stream, old(ws.Future()), exit, seen, missing, box)
    ensures exit.StillRunning? ==> |seen| <= old(|ws.Future().frames|)
    ensures box.base == old(ws.stream.sent) && box.faults == old(ws.stream.writeFaults)
    ensures old(link.submitted) <= link.submitted
    ensures ws.stream.readFaults >= old(ws.stream.readFaults) && ws.stream.blocks >= old(ws.stream.blocks)
    ensures link.fulls >= old(link.fulls)
    ensures old(link.shutdown) && rounds > 0 ==> exit == ShutDown && seen == [] && |box.log| == 1
    ensures exit == ReadFailed(Broken) ==> ws.stream.readFaults > old(ws.stream.readFaults)
  {
    ghost var all := ws.Future();
    hide *;
    box := Announce(link, ws, all);
    exit, seen, missing, box := Watch(link, ws, rounds, burst, all, box);
  }

  /**
   * The whole thread. Every failure to connect says so with a single `Disconnected`, and has its reason; afterwards
   * the story is that of the frames on the wire after the upgrade, and what went out after the request is what the
   * log of the outbox says.
   */
  method WsThread(link: Link, urlOk: bool, stream: Option<Socket>, cfg: Config, request: Bytes, accepts: Bytes -> bool,
                  patience: nat, rounds: nat, burst: nat)
    returns (exit: Exit, ghost all: Parsed, ghost seen: seq<Frame>, ghost missing: seq<Event>, ghost box: Outbox)
    requires Running(link) && link.wrote == [] && link.sent == [] && link.events == []
    modifies link, if stream.Some? then {stream.value} else {}
    ensures exit.ConnectFailed? ==>
              && link.Valid() && !link.queueAlive && !link.SomeoneAwaits()
              && (link.receiverOpen ==> link.sent == [Disconnected(ReadError)])
    ensures exit.ConnectFailed? ==>
              (|| !urlOk || stream.None?
               || stream.value.writeFaults > old(stream.value.writeFaults)
               || stream.value.readFaults > old(stream.value.readFaults)
               || stream.value.blocks > old(stream.value.blocks) + patience
               || HeaderEnd(old(stream.value.wire)) == None || AnswerTooLong(old(stream.value.wire))
               || !accepts(old(stream.value.wire)[..HeaderEnd(old(stream.value.wire)).value]))
    ensures !exit.ConnectFailed? ==>
              && urlOk && stream.Some? && HeaderEnd(old(stream.value.wire)).Some?
              && all == Parse(cfg, None, old(stream.value.wire)[HeaderEnd(old(stream.value.wire)).value + 4..])
              && box.base == old(stream.value.sent) + request && box.faults == old(stream.value.writeFaults)
    ensures exit.StillRunning? ==> Ongoing(link, stream.value, all, seen, missing, box)
    ensures exit.StillRunning? ==>
              rounds <= |all.frames| + (stream.value.blocks - old(stream.value.blocks)) + (link.fulls - old(link.fulls))
    ensures !exit.StillRunning? && !exit.ConnectFailed? ==> Left(link, stream.value, all, exit, seen, missing, box)
    ensures old(link.shutdown) && rounds > 0 ==> exit == ShutDown || exit == ConnectFailed
    ensures exit == ReadFailed(Broken) ==> stream.value.readFaults > old(stream.value.readFaults)
  {
    hide Link.CompletionsOk, Parse, Left, Ongoing, Balanced, WsClient.Bounded, ParseHead, HeaderEnd, WsClient.Rest,
         AnswerTooLong;
    all, seen, missing, box := Parsed([], false), [], [], Outbox([], 0, []);
    link.Executor();
    if urlOk && stream.Some? {
      var connected := Connect(stream.value, cfg, request, accepts, patience);
      if connected.Ok? {
        all := connected.value.Future();
        exit, seen, missing, box := Serve(link, connected.value, rounds, burst);
        return;
      }
    }
    exit := ConnectFailed;
    link.SendBlocking(Disconnected(ReadError));
    link.DropQueue();
  }

  /**
   * `send` keeps its word. As long as no frame was torn, every job whose sender was told of success is among the binary
   * frames that a server reads from what went out, in the order of submission; without a write fault no frame is.
   */
  lemma ReportedJobsAreRead(link: Link, stream: Socket, box: Outbox, id: nat)
    requires link.Valid() && Booked(link, stream, box)
    requires Intact(box.log) || stream.writeFaults == box.faults
    requires id < |link.submitted| && link.completions[id] == Finished(true)
    ensures
      var read := Binaries(ServerReadAll(stream.sent[|box.base|..]).frames);
      id < |read| && read[..id + 1] == link.submitted[..id + 1]
  {
    hide OnWire, Honest, AllOk, Jobs, JobsOk, Intact, ServerReadAll, Binaries;
    if stream.writeFaults == box.faults {
      AllOkIsIntact(box.log);
    }
    assert stream.sent[|box.base|..] == OnWire(box.log);
    JobsAreRead(box.log);
    assert id < |link.wrote|;
    var read := Binaries(ServerReadAll(OnWire(box.log)).frames);
    assert link.wrote == read[..|link.wrote|];
    assert read[..id + 1] == link.wrote[..id + 1] == link.submitted[..id + 1];
  }

  /**
   * The condition is needed: a worker whose pong was cut short and whose next write then went out in full. Its books
   * are in order, the sender has been told of success, and the server has read no message at all.
   */
  method CutPongState() returns (link: Link, stream: Socket, ghost box: Outbox)
    ensures fresh(link) && fresh(stream) && Writing(link, stream, box)
    ensures link.submitted == [[7]] && link.completions == [Finished(true)] && Pongs(box.log) == [[1, 2, 3, 4]]
    ensures stream.writeFaults == box.faults + 1
    ensures Binaries(ServerReadAll(stream.sent[|box.base|..]).frames) == []
  {
    var data: Payload := [7];
    hide *;
    link := OneJobDone(data);
    stream := new Socket([]);
    stream.sent := OnWire([CUT_PONG, LOST_JOB]);
    stream.writeFaults := 1;
    box := Outbox([], 0, [CUT_PONG, LOST_JOB]);
    CutPongBooked();
    CutPongHidesJob();
    BooksInOrder(link, stream, box);
    assert stream.sent[0..] == stream.sent;
  }

  /** A link whose one job was taken, written and reported a success. */
  method OneJobDone(data: Payload) returns (link: Link)
    ensures fresh(link) && Running(link)
    ensures link.submitted == [data] && link.wrote == [data] && link.completions == [Finished(true)]
  {
    link := new Link(true);
    var submission := link.Submit(data);
    var job := link.TryTake();
    assert job.Some?;
    link.Complete(0, true);
    assert link.submitted[..1] == [data];
  }

  lemma BooksInOrder(link: Link, stream: Socket, box: Outbox)
    requires Running(link) && link.wrote == [[7]] && box == Outbox([], 0, [CUT_PONG, LOST_JOB])
    requires stream.sent == OnWire(box.log) && stream.writeFaults == 1
    ensures Writing(link, stream, box)
  {
    CutPongBooked();
    hide OnWire, Honest, AllJobsOk, JobsOk, Jobs;
  }

  lemma CutPongBooked()
    ensures
      var log := [CUT_PONG, LOST_JOB];
      Honest(log) && Jobs(log) == [[7]] && AllJobsOk(log) && JobsOk(log) && Pongs(log) == [[1, 2, 3, 4]]
    ensures [] + OnWire([CUT_PONG, LOST_JOB]) == OnWire([CUT_PONG, LOST_JOB])
  {
    hide *;
    var last := CutPongWire();
    TwoEmissions(CUT_PONG, LOST_JOB);
  }
}
