/** Whole runs of record operations on one namespace, against a plain map from logical keys. */
module RecordRuns {
  import opened Prelude
  import opened Records
  import opened Images
  import opened FlashRecords

  datatype RecordOp = Put(key: Bytes, value: Bytes) | Delete(key: Bytes) | Load(key: Bytes)

  /** What the caller was told. */
  datatype Answer = Written(result: Result<()>) | Loaded(found: Result<Option<Bytes>>)

  /**
   * The plain map after an operation that was answered so: only what succeeded has happened, and only to its own key.
   */
  function PlainStep(m: map<Bytes, Bytes>, op: RecordOp, answer: Answer): map<Bytes, Bytes> {
    match op
    case Put(key, value) => if answer.Written? && answer.result.Ok? then m[key := value] else m
    case Delete(key) => if answer.Written? && answer.result.Ok? then m - {key} else m
    case Load(_) => m
  }

  /** A load that is answered finds what the plain map holds. */
  predicate PlainAnswer(m: map<Bytes, Bytes>, op: RecordOp, answer: Answer) {
    match op
    case Load(key) => answer.Loaded? && (answer.found.Ok? ==> answer.found.value == Lookup(m, key))
    case _ => answer.Written?
  }

  /** The plain map after operations answered so. */
  function PlainRun(m: map<Bytes, Bytes>, ops: seq<RecordOp>, answers: seq<Answer>): map<Bytes, Bytes>
    requires |answers| <= |ops|
  {
    if answers == [] then m
    else
      var n := |answers| - 1;
      PlainStep(PlainRun(m, ops, answers[..n]), ops[n], answers[n])
  }

  /** Every operation was answered as the plain map of its time answers it. */
  predicate PlainAnswers(m: map<Bytes, Bytes>, ops: seq<RecordOp>, answers: seq<Answer>)
    requires |answers| <= |ops|
  {
    answers == []
    || (var n := |answers| - 1;
        PlainAnswers(m, ops, answers[..n]) && PlainAnswer(PlainRun(m, ops, answers[..n]), ops[n], answers[n]))
  }

  predicate OpOk(p: Platform, ns: Ns, op: RecordOp) {
    op.Put? ==> KeyOk(p, ns, op.key) && ValueOk(p, ns, op.value)
  }

  ghost predicate OthersUntouched(before: Image, after: Image, ns: Ns) {
    forall other :: other != ns ==> after.Get(other) == before.Get(other)
  }

  lemma StillUntouched(a: Image, b: Image, c: Image, ns: Ns)
    requires OthersUntouched(a, b, ns) && OthersUntouched(b, c, ns)
    ensures OthersUntouched(a, c, ns)
  {
  }

  lemma OneMoreStep(m: map<Bytes, Bytes>, ops: seq<RecordOp>, answers: seq<Answer>, answer: Answer)
    requires |answers| < |ops| && PlainAnswers(m, ops, answers)
    requires PlainAnswer(PlainRun(m, ops, answers), ops[|answers|], answer)
    ensures PlainRun(m, ops, answers + [answer]) == PlainStep(PlainRun(m, ops, answers), ops[|answers|], answer)
    ensures PlainAnswers(m, ops, answers + [answer])
  {
    assert (answers + [answer])[..|answers|] == answers;
  }

  /** What is on flash when an operation starts or ends, and how often the medium has failed by then. */
  datatype Stage = Stage(image: Image, faults: nat)

  /** A failure has a reason: the medium, the slot check, or a record of another key under the same name. */
  ghost predicate Explained(p: Platform, ns: Ns, op: RecordOp, answer: Answer, a: Stage, b: Stage) {
    || b.faults > a.faults
    || match op
       case Put(key, value) =>
         answer.Written? && (answer.result.Ok? || !Storable(p, a.image, ns, key, |value|))
       case Delete(key) =>
         answer.Written?
         && (answer.result.Ok? || (KeyName(p.hash, key) in a.image.Get(ns) && key !in Stored(p, a.image, ns)))
       case Load(_) => answer.Loaded? && answer.found.Ok?
  }

  ghost predicate Stepped(p: Platform, ns: Ns, op: RecordOp, answer: Answer, a: Stage, b: Stage) {
    && Stored(p, b.image, ns) == PlainStep(Stored(p, a.image, ns), op, answer)
    && PlainAnswer(Stored(p, a.image, ns), op, answer)
    && Explained(p, ns, op, answer, a, b)
    && OthersUntouched(a.image, b.image, ns)
  }

  /** `stages` goes from one operation to the next. */
  ghost predicate AllStepped(p: Platform, ns: Ns, ops: seq<RecordOp>, answers: seq<Answer>, stages: seq<Stage>) {
    && |answers| <= |ops| && |stages| == |answers| + 1
    && forall i :: 0 <= i < |answers| ==> Stepped(p, ns, ops[i], answers[i], stages[i], stages[i + 1])
  }

  ghost function Here(flash: FlashNamespaces): Stage
    reads flash.nvs
  {
    Stage(flash.nvs.image, flash.nvs.faults)
  }

  method Step(flash: FlashNamespaces, ns: Ns, op: RecordOp) returns (answer: Answer)
    requires flash.Durable() && IsSignal(ns) && OpOk(flash.p, ns, op)
    modifies flash.nvs, flash.slots
    ensures flash.Durable()
    ensures Stepped(flash.p, ns, op, answer, old(Here(flash)), Here(flash))
  {
    hide Stored, Image.Get, Fit, AllReopenable, SlotsSound, Storable, KeyOk, ValueOk, KeyName;
    match op {
      case Put(key, value) =>
        var r := flash.PutRecord(ns, key, value);
        return Written(r);
      case Delete(key) =>
        var r := flash.DeleteRecord(ns, key);
        return Written(r);
      case Load(key) =>
        var found := flash.LoadRecord(ns, key);
        return Loaded(found);
    }
  }

  /** A run so far refines the plain map. */
  ghost predicate Refines(p: Platform, ns: Ns, start: Image, now: Image, ops: seq<RecordOp>, answers: seq<Answer>) {
    && |answers| <= |ops|
    && Stored(p, now, ns) == PlainRun(Stored(p, start, ns), ops, answers)
    && PlainAnswers(Stored(p, start, ns), ops, answers)
    && OthersUntouched(start, now, ns)
  }

  /** Step by step to the whole: what every operation does makes the run a run of the plain map. */
  lemma {:induction false} SteppedRefines(p: Platform, ns: Ns, ops: seq<RecordOp>, answers: seq<Answer>,
                                          stages: seq<Stage>)
    requires AllStepped(p, ns, ops, answers, stages)
    ensures Refines(p, ns, stages[0].image, stages[|answers|].image, ops, answers)
    decreases |answers|
  {
    hide Stored;
    if answers == [] {
      assert OthersUntouched(stages[0].image, stages[0].image, ns);
    } else {
      var n := |answers| - 1;
      SteppedRefines(p, ns, ops, answers[..n], stages[..n + 1]);
      assert answers == answers[..n] + [answers[n]];
      hide Explained, PlainStep, PlainAnswer;
      assert Stepped(p, ns, ops[n], answers[n], stages[n], stages[n + 1]);
      OneMoreStep(Stored(p, stages[0].image, ns), ops, answers[..n], answers[n]);
      StillUntouched(stages[0].image, stages[n].image, stages[n + 1].image, ns);
    }
  }

  lemma NothingStepped(p: Platform, ns: Ns, ops: seq<RecordOp>, here: Stage)
    ensures AllStepped(p, ns, ops, [], [here])
  {
  }

  lemma OneMoreStage(p: Platform, ns: Ns, ops: seq<RecordOp>, answers: seq<Answer>, stages: seq<Stage>, answer: Answer,
                     here: Stage)
    requires AllStepped(p, ns, ops, answers, stages) && |answers| < |ops|
    requires Stepped(p, ns, ops[|answers|], answer, stages[|answers|], here)
    ensures AllStepped(p, ns, ops, answers + [answer], stages + [here])
  {
    hide Stepped;
  }

  /**
   * A namespace refines a plain map: over any run of puts, deletes and loads, whatever fails on the way, what is stored
   * is the plain map to which only the successful writes were applied, every load was answered from that map as it was
   * then, every failure has its reason, no other namespace changed, and the store can be reopened from every moment of
   * the run.
   */
  method Run(flash: FlashNamespaces, ns: Ns, ops: seq<RecordOp>)
    returns (answers: seq<Answer>, ghost stages: seq<Stage>)
    requires flash.Durable() && IsSignal(ns) && forall i :: 0 <= i < |ops| ==> OpOk(flash.p, ns, ops[i])
    modifies flash.nvs, flash.slots
    ensures flash.Durable() && |answers| == |ops|
    ensures AllStepped(flash.p, ns, ops, answers, stages) && stages[0] == old(Here(flash))
    ensures stages[|ops|] == Here(flash)
    ensures Refines(flash.p, ns, old(flash.nvs.image), flash.nvs.image, ops, answers)
  {
    ghost var p, start := flash.p, Here(flash);
    assert start.image == flash.nvs.image;
    hide *;
    answers, stages := [], [start];
    NothingStepped(p, ns, ops, start);
    for i := 0 to |ops|
      invariant flash.Durable() && |answers| == i && |stages| == i + 1
      invariant AllStepped(p, ns, ops, answers, stages) && stages[0] == start && stages[i] == Here(flash)
    {
      hide *;
      var answer := Step(flash, ns, ops[i]);
      OneMoreStage(p, ns, ops, answers, stages, answer, Here(flash));
      answers, stages := answers + [answer], stages + [Here(flash)];
    }
    SteppedRefines(p, ns, ops, answers, stages);
    HereIs(flash);
  }

  lemma HereIs(flash: FlashNamespaces)
    ensures Here(flash).image == flash.nvs.image
  {
  }
}
