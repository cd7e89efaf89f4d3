/** Whole runs of store operations, against a store without mirrors that forgets nothing. */
module StoreRuns {
  import opened Prelude
  import opened RecordNames
  import opened Records
  import opened Images
  import opened NvsPartition
  import opened FlashRecords
  import opened Lru
  import opened LruRecency
  import opened Mirrors
  import opened Store

  datatype StoreOp =
    | Change(op: WriteOp)
    | LoadIdentity(address: Bytes)
    | GetSession(address: Bytes)
    | HasSignalState(user: Bytes)
    | LoadPrekey(ns: Ns, id: u32)
    | GetSenderKey(address: Bytes)
    | GetSyncKey(keyId: Bytes)
    | LoadDevice
    | DeviceExists
    | ClearSessions
    | Wipe
    | Seal

  /** What the caller was told; of a batch also how much of it was written. */
  datatype Answer =
    | Changed(result: Result<()>, ghost written: nat)
    | Found(found: Result<Option<Bytes>>)
    | Told(told: Result<bool>)
    | FoundKey(syncKey: Result<Option<SyncKey>>)
    | FoundDevice(device: Option<Device>)
    | Erased(erased: Result<nat>)
    | Done

  /** What there is besides RAM when an operation starts or ends. */
  datatype Moment = Moment(image: Image, faults: nat, accepting: bool)

  /** A reason to fail that is not in the contents of flash. */
  predicate Excused(a: Moment, b: Moment) {
    b.faults > a.faults || !a.accepting
  }

  predicate OpOk(p: Platform, op: StoreOp) {
    match op
    case Change(write) => WellTyped(p, write)
    case LoadPrekey(ns, _) => ns == Prekeys || ns == SignedPrekeys
    case _ => true
  }

  // ----- What the store without mirrors does -----

  ghost predicate Wrote(p: Platform, a: Moment, b: Moment, ns: Ns, key: Bytes, value: Bytes, r: Result<()>) {
    if r.Ok? then
      && a.accepting && Storable(p, a.image, ns, key, |value|)
      && Stored(p, b.image, ns) == Stored(p, a.image, ns)[key := value] && SameFlashElsewhere(a.image, b.image, ns)
    else
      b.image == a.image && (Excused(a, b) || !Storable(p, a.image, ns, key, |value|))
  }

  ghost predicate WroteBatch(p: Platform, a: Moment, b: Moment, ns: Ns, batch: seq<Entry>, r: Result<()>,
                             written: nat) {
    && written <= |batch| && (r.Ok? <==> written == |batch|) && (written > 0 ==> a.accepting)
    && Stored(p, b.image, ns) == PutFirst(Stored(p, a.image, ns), batch, written) && SameFlashElsewhere(a.image,
                                                                                                        b.image, ns)
    && (r.Err? ==> Excused(a, b) || !Storable(p, b.image, ns, batch[written].key, |batch[written].value|))
  }

  ghost predicate Removed(p: Platform, a: Moment, b: Moment, ns: Ns, key: Bytes, r: Result<()>) {
    if r.Ok? then
      a.accepting && Stored(p, b.image, ns) == Stored(p, a.image, ns) - {key} && SameFlashElsewhere(a.image, b.image,
                                                                                                    ns)
    else
      b.image == a.image && (Excused(a,
                                     b) || (KeyName(p.hash, key) in a.image.Get(ns) && key !in Stored(p, a.image, ns)))
  }

  /** The marker goes first, so a failure may leave it behind. */
  ghost predicate WroteSyncKey(p: Platform, a: Moment, b: Moment, id: Bytes, payload: Bytes, r: Result<()>) {
    if r.Ok? then
      && Wrote(p, a, b, SyncKeys, id, payload, r) && LoadedMarker(b.image.control) == Ok(Some(id))
    else
      && (b.image == a.image || (|id| <= MAX_KEY_LEN && b.image == WithLatest(a.image, id)))
      && (Excused(a, b) || !Storable(p, a.image, SyncKeys, id, |payload|))
  }

  ghost predicate SavedDevice(p: Platform, a: Moment, b: Moment, device: Device, r: Result<()>) {
    if r.Ok? then
      a.accepting && LoadedDevice(p, b.image.linked) == Ok(Some(device)) && SameFlashElsewhere(a.image, b.image, Linked)
    else
      b.image == a.image && (Excused(a, b) || |p.deviceJson(device)| > MAX_DEVICE_LEN)
  }

  ghost predicate Changes(p: Platform, op: WriteOp, r: Result<()>, written: nat, a: Moment, b: Moment) {
    match op
    case PutIdentity(address, key) => Wrote(p, a, b, Identities, address, key, r)
    case PutIdentities(batch) => WroteBatch(p, a, b, Identities, batch, r, written)
    case DeleteIdentity(address) => Removed(p, a, b, Identities, address, r)
    case PutSession(address, session) => Wrote(p, a, b, Sessions, address, session, r)
    case PutSessions(batch) => WroteBatch(p, a, b, Sessions, batch, r, written)
    case DeleteSession(address) => Removed(p, a, b, Sessions, address, r)
    case StorePrekey(ns, id, record) => Wrote(p, a, b, ns, LeBytes(id), record, r)
    case RemovePrekey(ns, id) => Removed(p, a, b, ns, LeBytes(id), r)
    case PutSenderKey(address, record) => Wrote(p, a, b, SenderKeys, address, record, r)
    case DeleteSenderKey(address) => Removed(p, a, b, SenderKeys, address, r)
    case SetSyncKey(id, key) => WroteSyncKey(p, a, b, id, p.syncKeyJson(key), r)
    case SaveDevice(device) => SavedDevice(p, a, b, device, r)
  }

  /** A read changes nothing, finds what is on flash, and fails only when the medium does. */
  ghost predicate Reads<T>(r: Result<T>, value: T, a: Moment, b: Moment) {
    b.image == a.image && if r.Ok? then r.value == value else b.faults > a.faults
  }

  ghost function ParsedKey(p: Platform, img: Image, id: Bytes): Option<SyncKey> {
    if id in Stored(p, img, SyncKeys) then p.parseSyncKey(Stored(p, img, SyncKeys)[id]) else None
  }

  /** The operation was answered, and flash was changed, as by a store that keeps nothing in RAM. */
  ghost predicate Served(p: Platform, op: StoreOp, answer: Answer, a: Moment, b: Moment) {
    && b.faults >= a.faults && (b.accepting <==> a.accepting && op != Seal)
    && match op
       case Change(write) => answer.Changed? && Changes(p, write, answer.result, answer.written, a, b)
       case LoadIdentity(address) => answer.Found? && Reads(answer.found,
                                                            Lookup(Stored(p, a.image, Identities), address), a, b)
       case GetSession(address) => answer.Found? && Reads(answer.found, Lookup(Stored(p, a.image, Sessions), address),
                                                          a, b)
       case HasSignalState(user) =>
         answer.Told?
         && Reads(answer.told,
                  AnyAddressOf(Stored(p, a.image, Sessions).Keys + Stored(p, a.image, Identities).Keys, user), a, b)
       case LoadPrekey(ns, id) =>
         b == a && answer == Found(Ok(Lookup(Stored(p, a.image, ns), LeBytes(id))))
       case GetSenderKey(address) => b == a && answer == Found(Ok(Lookup(Stored(p, a.image, SenderKeys), address)))
       case GetSyncKey(id) => answer.FoundKey? && Reads(answer.syncKey, ParsedKey(p, a.image, id), a, b)
       case LoadDevice => b == a && answer.FoundDevice? && LoadedDevice(p, a.image.linked) == Ok(answer.device)
       case DeviceExists => b == a && answer == Told(Ok(LoadedDevice(p, a.image.linked) != Ok(None)))
       case ClearSessions =>
         answer.Erased?
         && if answer.erased.Ok? then
              answer.erased.value == |a.image.Get(Sessions)| && b.image == a.image.Set(Sessions, map[])
            else PartlyErased(a.image, Sessions, b.image) && b.faults > a.faults
       case Wipe =>
         answer.Changed?
         && if answer.result.Ok? then b.image == Blank(a.image)
            else ResetMoment(a.image, b.image) && b.faults > a.faults
       case Seal => answer == Done && b.image == a.image
  }

  predicate EraseFailed(op: StoreOp, answer: Answer) {
    || (op == ClearSessions && answer.Erased? && answer.erased.Err?)
    || (op == Wipe && answer.Changed? && answer.result.Err?)
  }

  /**
   * A failed erasure leaves RAM and flash apart, until it is tried again, if it erased something: a wipe on every
   * board, a session clear on those that mirror sessions.
   */
  predicate Strands(p: Platform, op: StoreOp, answer: Answer, before: Image, after: Image) {
    EraseFailed(op, answer) && after != before && (op.Wipe? || p.hasPsram)
  }

  // ----- Which identities it used -----

  ghost function BatchUses(batch: seq<Entry>, n: nat): seq<Event<Bytes>>
    requires n <= |batch|
  {
    if n == 0 then [] else BatchUses(batch, n - 1) + [Used(batch[n - 1].key)]
  }

  /** What an operation that was answered so has done to the identities in use. */
  ghost function Uses(op: StoreOp, answer: Answer): seq<Event<Bytes>> {
    match op
    case Change(PutIdentity(address, _)) => if answer.Changed? && answer.result.Ok? then [Used(address)] else []
    case Change(PutIdentities(batch)) =>
      if answer.Changed? && answer.written <= |batch| then BatchUses(batch, answer.written) else []
    case Change(DeleteIdentity(address)) => if answer.Changed? && answer.result.Ok? then [Deleted(address)] else []
    case LoadIdentity(address) =>
      if answer.Found? && answer.found.Ok? && answer.found.value.Some? then [Used(address)] else []
    case Wipe => if answer.Changed? && answer.result.Ok? then [Cleared] else []
    case _ => []
  }

  /** The use order of the identities follows from the operations and their answers alone. */
  ghost predicate Follows(p: Platform, before: StoreInner, events: seq<Event<Bytes>>, after: StoreInner) {
    && Tracks(after.identityOrder, after.identities)
    && (!p.hasPsram ==> after.identityOrder == AfterAll(before.identityOrder, events, MIRROR_CAP))
  }

  lemma NothingUsed(p: Platform, img: Image, x: StoreInner, y: StoreInner)
    requires MirrorsOk(p, img, y) && y.identityOrder == x.identityOrder
    ensures Follows(p, x, [], y)
  {
    assert MirrorOk(p, img, y, Identities);
  }

  lemma OneEvent(p: Platform, img: Image, x: StoreInner, event: Event<Bytes>, y: StoreInner)
    requires MirrorsOk(p, img, y) && (!p.hasPsram ==> y.identityOrder == After(x.identityOrder, event, MIRROR_CAP))
    ensures Follows(p, x, [event], y)
  {
    assert MirrorOk(p, img, y, Identities);
    AfterOne(x.identityOrder, event);
    hide After, AfterAll;
  }

  lemma AfterOne(order: seq<Bytes>, event: Event<Bytes>)
    ensures AfterAll(order, [event], MIRROR_CAP) == After(order, event, MIRROR_CAP)
  {
    hide After;
    assert [event][1..] == [];
    assert AfterAll(order, [event], MIRROR_CAP) == AfterAll(After(order, event, MIRROR_CAP), [], MIRROR_CAP);
  }

  lemma UseOrder(p: Platform, x: StoreInner, address: Bytes, key: Bytes)
    ensures !p.hasPsram ==>
              UsedIdentity(p, x, address, key).identityOrder == After(x.identityOrder, Used(address), MIRROR_CAP)
  {
  }

  lemma {:induction false} BatchOrder(p: Platform, x: StoreInner, batch: seq<Entry>, n: nat)
    requires n <= |batch| && !p.hasPsram
    ensures UsedIdentities(p, x, batch, n).identityOrder == AfterAll(x.identityOrder, BatchUses(batch, n), MIRROR_CAP)
  {
    hide *;
    if n > 0 {
      var before, key := UsedIdentities(p, x, batch, n - 1), batch[n - 1].key;
      BatchOrder(p, x, batch, n - 1);
      OneMoreUsed(p, x, batch, n - 1);
      OneMoreUse(batch, n - 1);
      UseOrder(p, before, key, batch[n - 1].value);
      AfterBoth(x.identityOrder, BatchUses(batch, n - 1), [Used(key)], MIRROR_CAP);
      AfterOne(before.identityOrder, Used(key));
    } else {
      NothingUsedYet(p, x, batch);
    }
  }

  lemma OneMoreUse(batch: seq<Entry>, n: nat)
    requires n < |batch|
    ensures BatchUses(batch, n + 1) == BatchUses(batch, n) + [Used(batch[n].key)]
  {
  }

  lemma NothingUsedYet(p: Platform, x: StoreInner, batch: seq<Entry>)
    ensures UsedIdentities(p, x, batch, 0).identityOrder == AfterAll(x.identityOrder, BatchUses(batch, 0), MIRROR_CAP)
  {
  }

  lemma BatchEvents(p: Platform, img: Image, x: StoreInner, batch: seq<Entry>, n: nat, y: StoreInner)
    requires MirrorsOk(p, img, y) && n <= |batch| && y == UsedIdentities(p, x, batch, n)
    ensures Follows(p, x, BatchUses(batch, n), y)
  {
    assert MirrorOk(p, img, y, Identities);
    if !p.hasPsram {
      BatchOrder(p, x, batch, n);
    }
  }

  lemma SessionOrder(p: Platform, x: StoreInner, address: Bytes, session: Bytes)
    ensures UsedSession(p, x, address, session).identityOrder == x.identityOrder
  {
  }

  lemma {:induction false} SessionsOrder(p: Platform, x: StoreInner, batch: seq<Entry>, n: nat)
    requires n <= |batch|
    ensures UsedSessions(p, x, batch, n).identityOrder == x.identityOrder
  {
    if n > 0 {
      SessionsOrder(p, x, batch, n - 1);
    }
  }

  lemma SyncKeyOrder(p: Platform, x: StoreInner, id: Bytes, key: SyncKey)
    ensures UsedSyncKey(p, x, id, key, Some(id)).identityOrder == x.identityOrder
  {
  }

  ghost function Here(store: NvsStore): Moment
    reads store, store.flash, store.flash.nvs
  {
    Moment(store.flash.nvs.image, store.flash.nvs.faults, store.acceptingWrites)
  }

  method ChangeIdentity(store: NvsStore, op: WriteOp) returns (r: Result<()>, ghost written: nat)
    requires store.Valid() && WellTyped(store.p, op) && (op.PutIdentity? || op.PutIdentities? || op.DeleteIdentity?)
    modifies store`inner, store.flash.nvs, store.flash.slots
    ensures store.Valid() && store.flash.nvs.faults >= old(store.flash.nvs.faults)
    ensures Changes(store.p, op, r, written, old(Here(store)), Here(store))
    ensures Follows(store.p, old(store.inner), Uses(Change(op), Changed(r, written)), store.inner)
  {
    hide Stored, Storable, FlashNamespaces.Durable, MirrorsOk, UsedIdentity, PutFirst, Follows, Image.Get, KeyName,
         After,
         SameFlashElsewhere, UsedIdentities;
    ghost var x := store.inner;
    written := 0;
    match op {
      case PutIdentity(address, key) =>
        r := store.PutIdentity(address, key);
        if r.Ok? {
          UseOrder(store.p, x, address, key);
          OneEvent(store.p, store.flash.nvs.image, x, Used(address), store.inner);
          return;
        }
      case PutIdentities(batch) =>
        r, written := store.PutIdentitiesBatch(batch);
        BatchEvents(store.p, store.flash.nvs.image, x, batch, written, store.inner);
        return;
      case DeleteIdentity(address) =>
        r := store.DeleteIdentity(address);
        if r.Ok? {
          DeleteOrder(store.p, x, address);
          OneEvent(store.p, store.flash.nvs.image, x, Deleted(address), store.inner);
          return;
        }
    }
    NothingUsed(store.p, store.flash.nvs.image, x, store.inner);
  }

  lemma DeleteOrder(p: Platform, x: StoreInner, address: Bytes)
    ensures Without(x.identityOrder, address) == After(x.identityOrder, Deleted(address), MIRROR_CAP)
  {
  }

  method ChangeByAddress(store: NvsStore, op: WriteOp) returns (r: Result<()>, ghost written: nat)
    requires store.Valid() && WellTyped(store.p, op)
    requires op.PutSession? || op.PutSessions? || op.DeleteSession? || op.PutSenderKey? || op.DeleteSenderKey?
    modifies store`inner, store.flash.nvs, store.flash.slots
    ensures store.Valid() && store.flash.nvs.faults >= old(store.flash.nvs.faults)
    ensures Changes(store.p, op, r, written, old(Here(store)), Here(store))
    ensures Follows(store.p, old(store.inner), Uses(Change(op), Changed(r, written)), store.inner)
  {
    hide Stored, Storable, FlashNamespaces.Durable, MirrorsOk, UsedSession, UsedSessions, PutFirst, Follows,
         Image.Get,
         KeyName, SameFlashElsewhere;
    ghost var x := store.inner;
    written := 0;
    match op {
      case PutSession(address, session) =>
        r := store.PutSession(address, session);
        SessionOrder(store.p, x, address, session);
      case PutSessions(batch) =>
        r, written := store.PutSessionsBatch(batch);
        SessionsOrder(store.p, x, batch, written);
      case DeleteSession(address) =>
        r := store.DeleteSession(address);
      case PutSenderKey(address, record) =>
        r := store.PutSenderKey(address, record);
      case DeleteSenderKey(address) =>
        r := store.DeleteSenderKey(address);
    }
    NothingUsed(store.p, store.flash.nvs.image, x, store.inner);
  }

  method ChangeKeyOrDevice(store: NvsStore, op: WriteOp) returns (r: Result<()>, ghost written: nat)
    requires store.Valid() && WellTyped(store.p, op)
    requires (op.StorePrekey? || op.RemovePrekey? || op.SetSyncKey? || op.SaveDevice?)
    requires store.p.JsonRoundTrips()
    modifies store`inner, store.flash.nvs, store.flash.slots
    ensures store.Valid() && store.flash.nvs.faults >= old(store.flash.nvs.faults)
    ensures Changes(store.p, op, r, written, old(Here(store)), Here(store))
    ensures Follows(store.p, old(store.inner), Uses(Change(op), Changed(r, written)), store.inner)
  {
    hide Stored, Storable, FlashNamespaces.Durable, MirrorsOk, Follows, Image.Get, KeyName, SameFlashElsewhere,
         LoadedMarker, LoadedDevice, Platform.JsonRoundTrips, UsedSyncKey, WithLatest, LeBytes;
    ghost var x := store.inner;
    written := 0;
    match op {
      case StorePrekey(ns, id, record) =>
        r := store.StoreNumbered(ns, id, record);
      case RemovePrekey(ns, id) =>
        r := store.RemoveNumbered(ns, id);
      case SetSyncKey(id, key) =>
        r := store.SetSyncKey(id, key);
        SyncKeyOrder(store.p, x, id, key);
      case SaveDevice(device) =>
        r := store.SaveDevice(device);
    }
    NothingUsed(store.p, store.flash.nvs.image, x, store.inner);
  }

  method Read(store: NvsStore, op: StoreOp) returns (answer: Answer)
    requires store.Valid() && OpOk(store.p, op) && !(op.Change? || op.ClearSessions? || op.Wipe? || op.Seal?)
    modifies store`inner, store.flash.nvs`faults, store.flash.slots
    ensures store.Valid()
    ensures Served(store.p, op, answer, old(Here(store)), Here(store))
    ensures Follows(store.p, old(store.inner), Uses(op, answer), store.inner)
  {
    hide Stored, FlashNamespaces.Durable, MirrorsOk, Follows, Image.Get, LeBytes, After, AnyAddressOf, Lookup,
         LoadedDevice;
    ghost var x := store.inner;
    match op {
      case LoadIdentity(address) =>
        var found := store.LoadIdentity(address);
        answer := Found(found);
        if found.Ok? && found.value.Some? {
          OneEvent(store.p, store.flash.nvs.image, x, Used(address), store.inner);
          return;
        }
      case GetSession(address) =>
        var found := store.GetSession(address);
        answer := Found(found);
      case HasSignalState(user) =>
        var told := store.HasSignalStateForUser(user);
        answer := Told(told);
      case LoadPrekey(ns, id) =>
        var found := store.LoadNumbered(ns, id);
        answer := Found(Ok(found));
      case GetSenderKey(address) =>
        var found := store.GetSenderKey(address);
        answer := Found(Ok(found));
      case GetSyncKey(id) =>
        var key := store.GetSyncKey(id);
        answer := FoundKey(key);
      case LoadDevice =>
        var device := store.LoadDevice();
        answer := FoundDevice(device);
      case DeviceExists =>
        var present := store.DeviceExists();
        answer := Told(Ok(present));
    }
    NothingUsed(store.p, store.flash.nvs.image, x, store.inner);
  }

  method Erase(store: NvsStore, op: StoreOp) returns (answer: Answer)
    requires store.Valid() && (op.ClearSessions? || op.Wipe? || op.Seal?)
    modifies store, store.flash.nvs, store.flash.slots
    ensures store.flash.Durable() && (op.ClearSessions? ==> store.ValidButSessions())
    ensures store.Valid() <==> !Strands(store.p, op, answer, old(store.flash.nvs.image), store.flash.nvs.image)
    ensures Served(store.p, op, answer, old(Here(store)), Here(store))
    ensures Follows(store.p, old(store.inner), Uses(op, answer), store.inner)
  {
    hide FlashNamespaces.Durable, MirrorOk, Follows, Image.Get, Image.Set, After, Blank, ResetMoment, PartlyErased;
    ghost var x := store.inner;
    NothingUsed(store.p, store.flash.nvs.image, x, x);
    match op {
      case ClearSessions =>
        var erased := store.ClearSessions();
        answer := Erased(erased);
        SameOrder(store.p, x, x, store.inner);
      case Wipe =>
        var r := store.Reset();
        answer := Changed(r, 0);
        if r.Ok? {
          ClearedOrder(store.p, x);
          OneEvent(store.p, store.flash.nvs.image, x, Cleared, store.inner);
        }
      case Seal =>
        store.SealWrites();
        answer := Done;
    }
  }

  lemma ClearedOrder(p: Platform, x: StoreInner)
    ensures NOTHING.identityOrder == After(x.identityOrder, Cleared, MIRROR_CAP)
  {
  }

  lemma SameOrder(p: Platform, x: StoreInner, y: StoreInner, z: StoreInner)
    requires Follows(p, x, [], y) && z.identityOrder == y.identityOrder && z.identities == y.identities
    ensures Follows(p, x, [], z)
  {
  }

  method Step(store: NvsStore, op: StoreOp) returns (answer: Answer)
    requires store.Valid() && OpOk(store.p, op) && store.p.JsonRoundTrips()
    modifies store, store.flash.nvs, store.flash.slots
    ensures store.flash.Durable() && (op.ClearSessions? ==> store.ValidButSessions())
    ensures store.Valid() <==> !Strands(store.p, op, answer, old(store.flash.nvs.image), store.flash.nvs.image)
    ensures Served(store.p, op, answer, old(Here(store)), Here(store))
    ensures Follows(store.p, old(store.inner), Uses(op, answer), store.inner)
  {
    hide NvsStore.Valid, Changes, Reads, Follows, Platform.JsonRoundTrips, Uses, WellTyped, Image.Get, Image.Set,
         Stored, Blank,
         ResetMoment, PartlyErased;
    if op.Change? {
      var r: Result<()>;
      ghost var written: nat;
      if op.op.PutIdentity? || op.op.PutIdentities? || op.op.DeleteIdentity? {
        r, written := ChangeIdentity(store, op.op);
      } else if op.op.StorePrekey? || op.op.RemovePrekey? || op.op.SetSyncKey? || op.op.SaveDevice? {
        r, written := ChangeKeyOrDevice(store, op.op);
      } else {
        r, written := ChangeByAddress(store, op.op);
      }
      answer := Changed(r, written);
    } else if op.ClearSessions? || op.Wipe? || op.Seal? {
      answer := Erase(store, op);
    } else {
      answer := Read(store, op);
    }
    if !op.ClearSessions? && !op.Wipe? {
      ValidIsDurable(store);
    }
  }

  lemma ValidIsDurable(store: NvsStore)
    requires store.Valid()
    ensures store.flash.Durable()
  {
  }

  lemma HereIs(store: NvsStore)
    ensures Here(store).image == store.flash.nvs.image
  {
  }

  /** The uses of a whole run so far. */
  ghost function History(ops: seq<StoreOp>, answers: seq<Answer>): seq<Event<Bytes>>
    requires |answers| <= |ops|
  {
    if answers == [] then []
    else
      var n := |answers| - 1;
      History(ops, answers[..n]) + Uses(ops[n], answers[n])
  }

  /** `moments` goes from one operation to the next, and each was served as the store without mirrors serves it. */
  ghost predicate AllServed(p: Platform, ops: seq<StoreOp>, answers: seq<Answer>, moments: seq<Moment>) {
    && |answers| <= |ops| && |moments| == |answers| + 1
    && forall i :: 0 <= i < |answers| ==> Served(p, ops[i], answers[i], moments[i], moments[i + 1])
  }

  /** A run so far: from `moments[0]` and the RAM state `x` to `now` and `y`. */
  ghost predicate SoFar(p: Platform, ops: seq<StoreOp>, answers: seq<Answer>, moments: seq<Moment>, now: Moment,
                        x: StoreInner, y: StoreInner) {
    && AllServed(p, ops, answers, moments) && moments[|answers|] == now
    && Follows(p, x, History(ops, answers), y)
  }

  ghost predicate EndsStranded(p: Platform, ops: seq<StoreOp>, answers: seq<Answer>, moments: seq<Moment>)
    requires |answers| <= |ops| && |moments| == |answers| + 1
  {
    var n := |answers|;
    n > 0 && Strands(p, ops[n - 1], answers[n - 1], moments[n - 1].image, moments[n].image)
  }

  lemma NothingServedYet(p: Platform, ops: seq<StoreOp>, now: Moment, x: StoreInner)
    requires Follows(p, x, [], x)
    ensures SoFar(p, ops, [], [now], now, x, x) && !EndsStranded(p, ops, [], [now])
  {
  }

  lemma OneMoreServed(p: Platform, ops: seq<StoreOp>, answers: seq<Answer>, moments: seq<Moment>, now: Moment,
                      x: StoreInner, y: StoreInner,
                      answer: Answer, next: Moment, z: StoreInner)
    requires SoFar(p, ops, answers, moments, now, x, y) && |answers| < |ops|
    requires Served(p, ops[|answers|], answer, now, next) && Follows(p, y, Uses(ops[|answers|], answer), z)
    ensures SoFar(p, ops, answers + [answer], moments + [next], next, x, z) && (moments + [next])[0] == moments[0]
    ensures EndsStranded(p, ops, answers + [answer], moments + [next]) <==>
              Strands(p, ops[|answers|], answer, now.image, next.image)
  {
    hide Served, Uses, Follows, Strands;
    assert (answers + [answer])[..|answers|] == answers;
    FollowsOn(p, x, History(ops, answers), y, Uses(ops[|answers|], answer), z);
  }

  lemma FollowsOn(p: Platform, x: StoreInner, events: seq<Event<Bytes>>, y: StoreInner, more: seq<Event<Bytes>>,
                  z: StoreInner)
    requires Follows(p, x, events, y) && Follows(p, y, more, z)
    ensures Follows(p, x, events + more, z)
  {
    hide Tracks;
    AfterBoth(x.identityOrder, events, more, MIRROR_CAP);
  }

  /**
   * The identity used at `events[i]` has since been neither deleted nor reset, and fewer than eight others were used.
   */
  ghost predicate InRecentUse(events: seq<Event<Bytes>>, i: nat, address: Bytes) {
    && i < |events| && events[i] == Used(address)
    && Deleted(address) !in events[i + 1..] && Cleared !in events[i + 1..]
    && |OthersUsed(events[i + 1..], address)| < MIRROR_CAP
  }

  lemma RecentlyUsedIsMirrored(p: Platform, x: StoreInner, events: seq<Event<Bytes>>, y: StoreInner)
    requires Distinct(x.identityOrder) && Follows(p, x, events, y) && !p.hasPsram
    ensures forall i: nat, address :: InRecentUse(events, i, address) ==> address in y.identities
  {
    forall i: nat, address | InRecentUse(events, i, address) ensures address in y.identities {
      IdentityStaysMirrored(x, events, y, i, address);
    }
  }

  lemma OrderIsDistinct(p: Platform, img: Image, x: StoreInner)
    requires MirrorsOk(p, img, x)
    ensures Distinct(x.identityOrder) && Follows(p, x, [], x)
  {
    assert MirrorOk(p, img, x, Identities);
  }

  /** One more operation of a run, and whether it strands RAM. */
  method OneStep(store: NvsStore, ops: seq<StoreOp>, answers: seq<Answer>, ghost moments: seq<Moment>,
                 ghost x: StoreInner)
    returns (longer: seq<Answer>, ghost more: seq<Moment>, stranded: bool)
    requires store.Valid() && store.p.JsonRoundTrips() && |answers| < |ops| && OpOk(store.p, ops[|answers|])
    requires SoFar(store.p, ops, answers, moments, Here(store), x, store.inner) && |moments| == |answers| + 1
    modifies store, store.flash.nvs, store.flash.slots
    ensures |longer| == |answers| + 1 && |more| == |moments| + 1 && more[0] == moments[0]
    ensures SoFar(store.p, ops, longer, more, Here(store), x, store.inner)
    ensures stranded <==> EndsStranded(store.p, ops, longer, more)
    ensures store.flash.Durable() && (store.Valid() <==> !stranded)
    ensures ops[|answers|].ClearSessions? ==> store.ValidButSessions()
  {
    hide *;
    ghost var now, inner := Here(store), store.inner;
    var before := store.flash.nvs.image;
    HereIs(store);
    var answer := Step(store, ops[|answers|]);
    HereIs(store);
    OneMoreServed(store.p, ops, answers, moments, now, x, inner, answer, Here(store), store.inner);
    stranded := Strands(store.p, ops[|answers|], answer, before, store.flash.nvs.image);
    longer, more := answers + [answer], moments + [Here(store)];
  }

  /**
   * Any run of store operations, whatever fails on the way, up to an erasure that strands RAM. Each operation is
   * answered as a store would that keeps nothing in RAM, and does to flash what that store would. And without PSRAM
   * every identity used is still mirrored unless it was deleted, everything was reset, or eight others were used since.
   * An erasure that strands RAM leaves a store that can still be erased, and flash that can still be reopened.
   */
  method Run(store: NvsStore, ops: seq<StoreOp>) returns (answers: seq<Answer>, ghost moments: seq<Moment>)
    requires store.Valid() && store.p.JsonRoundTrips()
    requires forall i :: 0 <= i < |ops| ==> OpOk(store.p, ops[i])
    modifies store, store.flash.nvs, store.flash.slots
    ensures AllServed(store.p, ops, answers, moments) && moments[0] == old(Here(store))
    ensures moments[|answers|] == Here(store)
    ensures store.flash.Durable() && (store.Valid() <==> !EndsStranded(store.p, ops, answers, moments))
    ensures |answers| < |ops| ==> EndsStranded(store.p, ops, answers, moments)
    ensures EndsStranded(store.p, ops, answers, moments) && ops[|answers| - 1].ClearSessions? ==>
              store.ValidButSessions()
    ensures Follows(store.p, old(store.inner), History(ops, answers), store.inner)
    ensures !store.p.hasPsram ==>
              forall i: nat, address ::
                InRecentUse(History(ops, answers), i, address) ==> address in store.inner.identities
  {
    ghost var p, x, start := store.p, store.inner, Here(store);
    assert MirrorsOk(p, store.flash.nvs.image, x);
    hide *;
    OrderIsDistinct(p, store.flash.nvs.image, x);
    answers, moments := [], [start];
    NothingServedYet(p, ops, start, x);
    for i := 0 to |ops|
      invariant |answers| == i && |moments| == i + 1 && moments[0] == start
      invariant store.Valid() && SoFar(p, ops, answers, moments, Here(store), x, store.inner)
      invariant !EndsStranded(p, ops, answers, moments)
    {
      hide *;
      var stranded;
      answers, moments, stranded := OneStep(store, ops, answers, moments, x);
      if stranded {
        RunDone(p, ops, answers, moments, Here(store), x, store.inner);
        return;
      }
    }
    ValidIsDurable(store);
    RunDone(p, ops, answers, moments, Here(store), x, store.inner);
  }

  lemma RunDone(p: Platform, ops: seq<StoreOp>, answers: seq<Answer>, moments: seq<Moment>, now: Moment, x: StoreInner,
                y: StoreInner)
    requires SoFar(p, ops, answers, moments, now, x, y) && Distinct(x.identityOrder)
    ensures AllServed(p, ops, answers, moments) && moments[|answers|] == now && Follows(p, x, History(ops, answers), y)
    ensures !p.hasPsram ==>
              forall i: nat, address :: InRecentUse(History(ops, answers), i, address) ==> address in y.identities
  {
    hide Follows, InRecentUse, History;
    if !p.hasPsram {
      RecentlyUsedIsMirrored(p, x, History(ops, answers), y);
    }
  }
}
