/**
 * The maintenance arbiter and the maintenance run it starts, among requesters and writers that may act at any moment.
 */
module Supervisor {
  import opened Prelude
  import opened Records
  import opened Images
  import opened NvsPartition
  import opened FlashRecords
  import opened Mirrors
  import opened Store
  import opened Boot

  /** The greater rank wins when several are requested. */
  datatype MaintenanceAction = Reboot | ClearSessions | Reset {
    function Rank(): nat {
      match this
      case Reboot => 0
      case ClearSessions => 1
      case Reset => 2
    }
  }

  datatype MaintenanceRequest = Start | Queued | Rejected

  /** `top` is the greatest of the accepted actions. */
  ghost predicate IsHighest(accepted: seq<MaintenanceAction>, top: MaintenanceAction) {
    top in accepted && forall a :: a in accepted ==> a.Rank() <= top.Rank()
  }

  class MaintenanceCoordinator {
    var requested: Option<MaintenanceAction>
    var running: bool
    var accepting: bool

    /** Every request answered `Start` or `Queued`, in order. */
    ghost var accepted: seq<MaintenanceAction>

    /** How many callers were told to start maintenance. */
    ghost var starts: nat

    /** The contents flash had had when the other tasks last left off. */
    ghost var foreign: seq<Image>

    ghost predicate Valid()
      reads this
    {
      && (running <==> accepted != [])
      && starts == (if running then 1 else 0)
      && if accepted == [] then requested == None else requested.Some? && IsHighest(accepted, requested.value)
    }

    constructor ()
      ensures Valid() && accepting && accepted == []
    {
      requested := None;
      running := false;
      accepting := true;
      accepted := [];
      starts := 0;
      foreign := [];
    }

    /** An open window takes every request, and only the first caller ever is told to start; a closed one takes none. */
    method Request(action: MaintenanceAction) returns (r: MaintenanceRequest)
      requires Valid()
      modifies this
      ensures Valid() && accepting == old(accepting) && foreign == old(foreign)
      ensures r == Rejected <==> !old(accepting)
      ensures r == Rejected ==> unchanged(this)
      ensures r != Rejected ==> accepted == old(accepted) + [action]
      ensures r == Start <==> old(accepting) && old(accepted) == []
    {
      if !accepting {
        return Rejected;
      }
      requested := match requested {
        case None => Some(action)
        case Some(current) => Some(if current.Rank() >= action.Rank() then current else action)
      };
      accepted := accepted + [action];
      if running {
        return Queued;
      }
      running := true;
      starts := starts + 1;
      return Start;
    }

    method Requested() returns (action: MaintenanceAction)
      requires Valid()
      ensures if accepted == [] then action == Reboot else IsHighest(accepted, action)
    {
      return if requested.Some? then requested.value else Reboot;
    }

    /** The window closes exactly when nothing accepted outranks what was applied, and then for good. */
    method BeginReboot(applied: MaintenanceAction) returns (closed: bool)
      requires Valid()
      modifies this`accepting
      ensures Valid()
      ensures closed <==> forall a :: a in accepted ==> a.Rank() <= applied.Rank()
      ensures closed ==> !accepting
      ensures !closed ==> accepting == old(accepting)
    {
      if requested.Some? && requested.value.Rank() > applied.Rank() {
        return false;
      }
      accepting := false;
      return true;
    }

    method IsIdle() returns (idle: bool)
      requires Valid()
      ensures idle <==> accepting && accepted == []
    {
      return accepting && !running;
    }
  }

  /** What holds of the store whatever maintenance has done to it so far. */
  ghost predicate Sound(store: NvsStore)
    reads store, store.flash, store.flash.nvs, store.flash.slots
  {
    store.flash.p == store.p && store.flash.Durable() && (store.acceptingWrites ==> store.Valid())
  }

  /** Once sealed, a write changes nothing; until then it keeps the store sound. */
  method Attempt(store: NvsStore, op: WriteOp)
    requires Sound(store) && WellTyped(store.p, op) && store.p.JsonRoundTrips()
    modifies store`inner, store.flash.nvs, store.flash.slots
    ensures Sound(store) && store.acceptingWrites == old(store.acceptingWrites)
    ensures store.flash.nvs.faults >= old(store.flash.nvs.faults)
    ensures !store.acceptingWrites ==> unchanged(store) && unchanged(store.flash.nvs) && unchanged(store.flash.slots)
  {
    ghost var done: nat;
    var r: Result<()>;
    hide NvsStore.Refused, FlashNamespaces.Durable, Stored, MirrorsOk, SameFlashElsewhere, PutFirst,
         Platform.JsonRoundTrips,
         UsedIdentity, UsedSession, UsedSyncKey, LoadedMarker, LoadedDevice;
    match op {
      case PutIdentity(address, key) => r := store.PutIdentity(address, key);
      case PutIdentities(batch) => r, done := store.PutIdentitiesBatch(batch);
      case DeleteIdentity(address) => r := store.DeleteIdentity(address);
      case PutSession(address, session) => r := store.PutSession(address, session);
      case PutSessions(batch) => r, done := store.PutSessionsBatch(batch);
      case DeleteSession(address) => r := store.DeleteSession(address);
      case StorePrekey(ns, id, record) => r := store.StoreNumbered(ns, id, record);
      case RemovePrekey(ns, id) => r := store.RemoveNumbered(ns, id);
      case PutSenderKey(address, record) => r := store.PutSenderKey(address, record);
      case DeleteSenderKey(address) => r := store.DeleteSenderKey(address);
      case SetSyncKey(id, key) => r := store.SetSyncKey(id, key);
      case SaveDevice(device) => r := store.SaveDevice(device);
    }
  }

  /** Until the seal every change of flash was made by other tasks, and maintenance alone has made those after it. */
  ghost predicate HandsOff(c: MaintenanceCoordinator, store: NvsStore)
    reads c`foreign, store, store.flash, store.flash.nvs
  {
    && (store.acceptingWrites ==> store.flash.nvs.trail == c.foreign)
    && (!store.acceptingWrites ==> c.foreign <= store.flash.nvs.trail && store.sealedSeen == |c.foreign|)
  }

  /** Any number of requests and writes by the rest of the firmware, in any order. */
  method Others(c: MaintenanceCoordinator, store: NvsStore)
    requires c.Valid() && Sound(store) && HandsOff(c, store) && store.p.JsonRoundTrips()
    modifies c, store`inner, store.flash.nvs, store.flash.slots
    ensures c.Valid() && c.accepting == old(c.accepting) && old(c.accepted) <= c.accepted
    ensures !c.accepting ==> c.accepted == old(c.accepted)
    ensures old(c.accepted) != [] ==> c.starts == old(c.starts)
    ensures HandsOff(c, store) && (!store.acceptingWrites ==> c.foreign == old(c.foreign))
    ensures Sound(store) && store.acceptingWrites == old(store.acceptingWrites)
    ensures store.flash.nvs.faults >= old(store.flash.nvs.faults)
    ensures !store.acceptingWrites ==> unchanged(store) && unchanged(store.flash.nvs) && unchanged(store.flash.slots)
  {
    hide Sound, Platform.JsonRoundTrips, WellTyped, IsHighest;
    var steps: int := *;
    while steps > 0
      invariant c.Valid() && c.accepting == old(c.accepting) && old(c.accepted) <= c.accepted
      invariant !c.accepting ==> c.accepted == old(c.accepted)
      invariant Sound(store) && store.acceptingWrites == old(store.acceptingWrites)
      invariant HandsOff(c, store) && (!store.acceptingWrites ==> c.foreign == old(c.foreign))
      invariant store.flash.nvs.faults >= old(store.flash.nvs.faults)
      invariant !store.acceptingWrites ==>
                unchanged(store) && unchanged(store.flash.nvs) && unchanged(store.flash.slots)
    {
      hide Sound, Platform.JsonRoundTrips, WellTyped, IsHighest;
      steps := steps - 1;
      var asks: bool := *;
      if asks {
        var action: MaintenanceAction := *;
        var answer := c.Request(action);
      } else {
        var op: WriteOp := *;
        if WellTyped(store.p, op) {
          Attempt(store, op);
          if store.acceptingWrites {
            c.foreign := store.flash.nvs.trail;
          }
        }
      }
    }
  }

  /** What maintenance has made of the contents it found when it sealed the store. */
  ghost predicate Outcome(applied: MaintenanceAction, found: Image, left: Image) {
    match applied
    case Reset => left == Blank(found)
    case ClearSessions => left == found.Set(Sessions, map[])
    case Reboot => true
  }

  /** What a power loss during maintenance can leave of the contents it found. */
  ghost predicate MaintenanceMoment(found: Image, img: Image) {
    PartlyErased(found, Sessions, img) || Resetting(found, img) || img == Blank(found)
  }

  /** `found` was the content when `seen` contents had been seen, and only moments of maintenance came after it. */
  ghost predicate MomentsSince(found: Image, seen: nat, trail: seq<Image>) {
    && 0 < seen <= |trail| && trail[seen - 1] == found
    && forall i :: seen <= i < |trail| ==> MaintenanceMoment(found, trail[i])
  }

  lemma LaterMaintenanceMoment(found: Image, img: Image, next: Image)
    requires MaintenanceMoment(found, img)
    requires ResetMoment(img, next) || (PartlyErased(found, Sessions, img) && PartlyErased(img, Sessions, next))
    ensures MaintenanceMoment(found, next)
  {
    hide MidReset;
    if PartlyErased(found, Sessions, img) {
      ErasedSessionsBlankAlike(found, img);
      if PartlyErased(img, Sessions, next) {
        ErasedFurther(found, Sessions, img, next);
      }
    } else {
      assert Blank(Blank(found)) == Blank(found);
    }
  }

  /** Further moments of a reset, or of erasing sessions while nothing else was erased, are moments of the whole. */
  lemma MomentsGoOn(found: Image, seen: nat, trail: seq<Image>, longer: seq<Image>)
    requires MomentsSince(found, seen, trail) && trail <= longer
    requires
      var now := trail[|trail| - 1];
      forall i :: |trail| <= i < |longer| ==>
        ResetMoment(now, longer[i]) || (PartlyErased(found, Sessions, now) && PartlyErased(now, Sessions, longer[i]))
    ensures MomentsSince(found, seen, longer)
  {
    var now := trail[|trail| - 1];
    NothingErased(found, Sessions);
    hide PartlyErased, Resetting, Blank, ResetMoment;
    forall i | seen <= i < |longer| ensures MaintenanceMoment(found, longer[i]) {
      if i >= |trail| {
        LaterMaintenanceMoment(found, now, longer[i]);
      }
    }
  }

  /**
   * Where maintenance stands. Until the seal nothing was applied. After it, what a finished reset would leave is
   * fixed; and as long as no reset was tried, only session records can have gone.
   */
  ghost predicate Progress(store: NvsStore, applied: MaintenanceAction, resetTried: bool)
    reads store, store.flash, store.flash.nvs, store.flash.slots
  {
    && Sound(store)
    && (store.acceptingWrites <==> store.sealedAt.None?)
    && (store.acceptingWrites ==> applied == Reboot && !resetTried)
    && (store.sealedAt.Some? ==>
          var found, now := store.sealedAt.value, store.flash.nvs.image;
          && Fit(store.p, found) && !ResetPending(found.control)
          && MomentsSince(found, store.sealedSeen, store.flash.nvs.trail)
          && Blank(now) == Blank(found)
          && (applied == Reset ==> now == Blank(found))
          && (!resetTried ==> applied != Reset && store.ValidButSessions() && PartlyErased(found, Sessions, now))
          && (!resetTried && applied == ClearSessions ==> now == found.Set(Sessions, map[])))
  }

  lemma ResetMomentBlanksAlike(before: Image, img: Image)
    requires ResetMoment(before, img)
    ensures Blank(img) == Blank(before)
  {
  }

  lemma ErasedSessionsBlankAlike(before: Image, img: Image)
    requires PartlyErased(before, Sessions, img)
    ensures Blank(img) == Blank(before)
  {
  }

  /** Seals the store; whoever seals it first fixes what is found. */
  method Seal(store: NvsStore, applied: MaintenanceAction, ghost resetTried: bool)
    requires Progress(store, applied, resetTried)
    modifies store`acceptingWrites, store`sealedAt, store`sealedSeen
    ensures Progress(store, applied, resetTried) && !store.acceptingWrites
    ensures old(store.acceptingWrites) ==> store.sealedAt == Some(store.flash.nvs.image)
    ensures !old(store.acceptingWrites) ==> store.sealedAt == old(store.sealedAt)
    ensures store.sealedSeen == if old(store.acceptingWrites) then |store.flash.nvs.trail| else old(store.sealedSeen)
  {
    hide Fit, AllReopenable, SlotsSound, Blank, PartlyErased, MirrorOk, MaintenanceMoment;
    NothingErased(store.flash.nvs.image, Sessions);
    SpacesOfControlAndLinked(store.flash.nvs.image);
    store.SealWrites();
  }

  method TryReset(store: NvsStore, applied: MaintenanceAction, ghost resetTried: bool) returns (succeeded: bool)
    requires Progress(store, applied, resetTried) && !store.acceptingWrites && applied != Reset
    modifies store`inner, store.flash.nvs, store.flash.slots
    ensures Progress(store, if succeeded then Reset else applied, true)
    ensures store.flash.nvs.faults >= old(store.flash.nvs.faults) + (if succeeded then 0 else 1)
    ensures old(store.flash.nvs.trail) <= store.flash.nvs.trail
  {
    hide Fit, AllReopenable, SlotsSound, Blank, PartlyErased, MirrorOk, ResetMoment, MomentsSince;
    ghost var before, seen := store.flash.nvs.image, store.flash.nvs.trail;
    var r := store.Reset();
    MomentsGoOn(store.sealedAt.value, store.sealedSeen, seen, store.flash.nvs.trail);
    ResetMomentBlanksAlike(before, store.flash.nvs.image);
    return r.Ok?;
  }

  method TryClear(store: NvsStore, applied: MaintenanceAction) returns (succeeded: bool)
    requires Progress(store, applied, false) && !store.acceptingWrites && applied == Reboot
    modifies store`inner, store.flash.nvs, store.flash.slots
    ensures Progress(store, if succeeded then ClearSessions else applied, false)
    ensures store.flash.nvs.faults >= old(store.flash.nvs.faults) + (if succeeded then 0 else 1)
    ensures old(store.flash.nvs.trail) <= store.flash.nvs.trail
  {
    hide Fit, AllReopenable, SlotsSound, Blank, PartlyErased, MirrorOk, Image.Get, Image.Set, MomentsSince;
    ghost var found, before, seen := store.sealedAt.value, store.flash.nvs.image, store.flash.nvs.trail;
    var r := store.ClearSessions();
    MomentsGoOn(found, store.sealedSeen, seen, store.flash.nvs.trail);
    ErasedFurther(found, Sessions, before, store.flash.nvs.image);
    ErasedSessionsBlankAlike(found, store.flash.nvs.image);
    if r.Ok? {
      ErasedTwice(found, before, store.flash.nvs.image);
    }
    return r.Ok?;
  }

  lemma ErasedTwice(found: Image, before: Image, after: Image)
    requires PartlyErased(found, Sessions, before) && after == before.Set(Sessions, map[])
    ensures after == found.Set(Sessions, map[])
  {
  }

  lemma ProgressWhileOthersAct(store: NvsStore, applied: MaintenanceAction, resetTried: bool)
    requires Sound(store) && store.acceptingWrites && store.sealedAt.None? && applied == Reboot && !resetTried
    ensures Progress(store, applied, resetTried)
  {
  }

  /** `Others` keeps the progress of maintenance. */
  method OthersMeanwhile(c: MaintenanceCoordinator, store: NvsStore, applied: MaintenanceAction, ghost resetTried: bool)
    requires c.Valid() && Progress(store, applied, resetTried) && HandsOff(c, store) && store.p.JsonRoundTrips()
    modifies c, store`inner, store.flash.nvs, store.flash.slots
    ensures c.Valid() && c.accepting == old(c.accepting) && old(c.accepted) <= c.accepted
    ensures !c.accepting ==> c.accepted == old(c.accepted)
    ensures old(c.accepted) != [] ==> c.starts == old(c.starts)
    ensures HandsOff(c, store) && (!store.acceptingWrites ==> c.foreign == old(c.foreign))
    ensures Progress(store, applied, resetTried) && store.acceptingWrites == old(store.acceptingWrites)
    ensures store.flash.nvs.faults >= old(store.flash.nvs.faults)
    ensures !store.acceptingWrites ==> unchanged(store) && unchanged(store.flash.nvs) && unchanged(store.flash.slots)
  {
    hide Sound, HandsOff, IsHighest, Platform.JsonRoundTrips, NvsStore.ValidButSessions, Blank, PartlyErased, Fit,
         MomentsSince;
    Others(c, store);
  }

  /** Applies one requested action; a failure leaves it to be tried again. */
  method Apply(c: MaintenanceCoordinator, store: NvsStore, action: MaintenanceAction, applied: MaintenanceAction,
               ghost resetTried: bool)
    returns (succeeded: bool, ghost tried: bool)
    requires c.Valid() && HandsOff(c, store) && store.p.JsonRoundTrips()
    requires Progress(store, applied, resetTried) && action.Rank() > applied.Rank() && (resetTried ==> action == Reset)
    modifies c, store, store.flash.nvs, store.flash.slots
    ensures c.Valid() && c.accepting == old(c.accepting) && old(c.accepted) <= c.accepted
    ensures old(c.accepted) != [] ==> c.starts == old(c.starts)
    ensures HandsOff(c, store)
    ensures Progress(store, if succeeded then action else applied, tried)
    ensures tried == (resetTried || action == Reset)
    ensures !store.acceptingWrites
    ensures store.flash.nvs.faults >= old(store.flash.nvs.faults) + (if succeeded then 0 else 1)
    ensures store.sealedAt
            == if old(store.acceptingWrites) then Some(old(store.flash.nvs.image)) else old(store.sealedAt)
  {
    hide Progress, Platform.JsonRoundTrips, IsHighest;
    Seal(store, applied, resetTried);
    OthersMeanwhile(c, store, applied, resetTried);
    tried := resetTried || action == Reset;
    match action {
      case Reset => succeeded := TryReset(store, applied, resetTried);
      case ClearSessions => succeeded := TryClear(store, applied);
      case Reboot => succeeded := true;
    }
  }

  /** Some accepted action is greater than what was applied. */
  ghost predicate Outranked(accepted: seq<MaintenanceAction>, applied: MaintenanceAction) {
    exists a :: a in accepted && a.Rank() > applied.Rank()
  }

  /** Nothing was applied, tried or sealed that was not asked for. */
  ghost predicate Asked(accepted: seq<MaintenanceAction>, applied: MaintenanceAction, resetTried: bool, sealing: bool) {
    && accepted != [] && (sealing ==> Outranked(accepted, Reboot))
    && (resetTried ==> Reset in accepted)
    && (applied == Reboot || applied in accepted)
  }

  lemma AskedGrows(accepted: seq<MaintenanceAction>, more: seq<MaintenanceAction>, applied: MaintenanceAction,
                   resetTried: bool, sealing: bool)
    requires Asked(accepted, applied, resetTried, sealing) && accepted <= more
    ensures Asked(more, applied, resetTried, sealing)
  {
    assert forall a | a in accepted :: a in more;
  }

  /** An attempt to apply the greatest of the requests, one greater than a reboot. */
  lemma AskedToApply(accepted: seq<MaintenanceAction>, top: MaintenanceAction, before: MaintenanceAction,
                     applied: MaintenanceAction, triedBefore: bool, sealing: bool)
    requires IsHighest(accepted, top) && top.Rank() > before.Rank() && Asked(accepted, before, triedBefore, sealing)
    requires applied == top || applied == before
    ensures Asked(accepted, applied, triedBefore || top == Reset, true) && (triedBefore ==> top == Reset)
  {
  }

  /** What maintenance knows between two rounds. */
  ghost predicate Running(c: MaintenanceCoordinator, store: NvsStore, applied: MaintenanceAction, resetTried: bool)
    reads c, store, store.flash, store.flash.nvs, store.flash.slots
  {
    && c.Valid() && Progress(store, applied, resetTried) && HandsOff(c, store)
    && Asked(c.accepted, applied, resetTried, store.sealedAt.Some?)
  }

  lemma RunningFacts(c: MaintenanceCoordinator, store: NvsStore, applied: MaintenanceAction, resetTried: bool)
    requires Running(c, store, applied, resetTried)
    ensures c.Valid() && c.accepted != [] && Progress(store, applied, resetTried) && HandsOff(c, store)
    ensures Asked(c.accepted, applied, resetTried, store.sealedAt.Some?)
  {
  }

  lemma StillRunning(c: MaintenanceCoordinator, store: NvsStore, applied: MaintenanceAction, resetTried: bool,
                     sealing: bool)
    requires c.Valid() && Progress(store, applied, resetTried) && HandsOff(c, store)
    requires Asked(c.accepted, applied, resetTried, sealing) && (store.sealedAt.Some? ==> sealing)
    ensures Running(c, store, applied, resetTried)
  {
  }

  lemma NothingOutranked(accepted: seq<MaintenanceAction>, top: MaintenanceAction, applied: MaintenanceAction)
    requires IsHighest(accepted, top) && top.Rank() <= applied.Rank()
    ensures forall a :: a in accepted ==> a.Rank() <= applied.Rank()
  {
  }

  /**
   * One round: apply what outranks what was applied, then try to close the window. Others may act between any two
   * steps, and so also between the last look at what is requested and the attempt to close.
   */
  method Round(c: MaintenanceCoordinator, store: NvsStore, before: MaintenanceAction, logoutBefore: bool,
               ghost triedBefore: bool)
    returns (closed: bool, applied: MaintenanceAction, logoutAttempted: bool, ghost resetTried: bool)
    requires Running(c, store, before, triedBefore) && c.accepting && store.p.JsonRoundTrips()
    modifies c, store, store.flash.nvs, store.flash.slots
    ensures Running(c, store, applied, resetTried) && old(c.accepted) <= c.accepted && c.starts == old(c.starts)
    ensures c.accepting == !closed
    ensures closed ==> IsHighest(c.accepted, applied) && (resetTried ==> applied == Reset)
    ensures store.flash.nvs.faults >= old(store.flash.nvs.faults)
    ensures store.flash.nvs.faults == old(store.flash.nvs.faults) ==>
              && applied.Rank() >= before.Rank() && (!closed ==> Outranked(c.accepted, applied))
              && forall a :: a in old(c.accepted) ==> a.Rank() <= applied.Rank()
  {
    hide *;
    applied, logoutAttempted, resetTried := before, logoutBefore, triedBefore;
    RunningFacts(c, store, applied, resetTried);
    ghost var known, sealing := c.accepted, store.sealedAt.Some?;
    OthersMeanwhile(c, store, applied, resetTried);
    AskedGrows(known, c.accepted, applied, resetTried, sealing);
    var requested := c.Requested();
    known := c.accepted;
    if requested.Rank() > applied.Rank() {
      logoutAttempted := logoutAttempted || requested == Reset;
      OthersMeanwhile(c, store, applied, resetTried);
      AskedToApply(known, requested, applied, applied, resetTried, sealing);
      AskedToApply(known, requested, applied, requested, resetTried, sealing);
      var succeeded;
      succeeded, resetTried := Apply(c, store, requested, applied, resetTried);
      sealing := true;
      applied := if succeeded then requested else applied;
      AskedGrows(known, c.accepted, applied, resetTried, sealing);
      if !succeeded {
        StillRunning(c, store, applied, resetTried, sealing);
        return false, applied, logoutAttempted, resetTried;
      }
    }
    NothingOutranked(known, requested, applied);
    ghost var last := c.accepted;
    OthersMeanwhile(c, store, applied, resetTried);
    AskedGrows(last, c.accepted, applied, resetTried, sealing);
    closed := c.BeginReboot(applied);
    StillRunning(c, store, applied, resetTried, sealing);
    AfterClosing(c.accepted, applied, resetTried, sealing);
  }

  /** Every round so far has applied more than the one before, or was overtaken by a greater request. */
  ghost predicate Advancing(accepted: seq<MaintenanceAction>, rounds: nat, applied: MaintenanceAction) {
    rounds > 0 ==> applied.Rank() >= rounds - 1 && Outranked(accepted, applied)
  }

  lemma NoRoundYet(accepted: seq<MaintenanceAction>)
    ensures Advancing(accepted, 0, Reboot)
  {
  }

  lemma OneMoreRound(known: seq<MaintenanceAction>, accepted: seq<MaintenanceAction>, rounds: nat,
                     before: MaintenanceAction,
                     applied: MaintenanceAction)
    requires Advancing(known, rounds, before) && applied.Rank() >= before.Rank()
    requires (forall a :: a in known ==> a.Rank() <= applied.Rank()) && Outranked(accepted, applied)
    ensures Advancing(accepted, rounds + 1, applied)
  {
  }

  /** Only two actions can be greater than what was applied before. */
  lemma ThreeRoundsSuffice(accepted: seq<MaintenanceAction>, rounds: nat, applied: MaintenanceAction)
    requires Advancing(accepted, rounds, applied)
    ensures rounds < 3
  {
  }

  lemma RunningStarts(c: MaintenanceCoordinator, store: NvsStore)
    requires c.Valid() && c.accepted != [] && Progress(store, Reboot, false) && HandsOff(c, store)
    requires store.sealedAt.None?
    ensures Running(c, store, Reboot, false)
  {
  }

  /**
   * The maintenance task, once some caller was told to start it; other tasks and the dashboard act wherever it lets
   * them. It stops trying after `attempts` rounds, a number that is arbitrary; three are enough if the medium does
   * not fail. When it gets to reboot, the window is closed, what it applied is the highest action accepted, and the
   * flash is what that action makes of the contents at the seal; for a plain reboot the store was never sealed, and
   * flash is as the other tasks left it. Whether it gets there or not, a power loss at any time after the seal leaves
   * a moment of maintenance, and before it maintenance changes nothing.
   */
  method RunMaintenance(c: MaintenanceCoordinator, store: NvsStore, hasClient: bool, attempts: nat)
    returns (rebooting: bool, applied: MaintenanceAction)
    requires c.Valid() && c.accepting && c.accepted != []
    requires store.Valid() && store.acceptingWrites && store.sealedAt.None? && store.p.JsonRoundTrips()
    modifies c, store, store.flash.nvs, store.flash.slots
    ensures c.Valid() && old(c.accepted) <= c.accepted && c.starts == old(c.starts) && Sound(store)
    ensures attempts >= 3 && store.flash.nvs.faults == old(store.flash.nvs.faults) ==> rebooting
    ensures store.sealedAt.Some? ==> MomentsSince(store.sealedAt.value, store.sealedSeen, store.flash.nvs.trail)
    ensures HandsOff(c, store)
    ensures rebooting ==> !c.accepting && IsHighest(c.accepted, applied) && applied == Greatest(c.accepted)
    ensures rebooting && applied == Reboot ==> store.acceptingWrites && store.sealedAt.None? && store.Valid()
    ensures rebooting && applied != Reboot ==>
              && !store.acceptingWrites && store.sealedAt.Some?
              && Fit(store.p, store.sealedAt.value) && !ResetPending(store.sealedAt.value.control)
              && Outcome(applied, store.sealedAt.value, store.flash.nvs.image)
  {
    ProgressWhileOthersAct(store, Reboot, false);
    c.foreign := store.flash.nvs.trail;
    hide *;
    var initial := c.Requested();
    var logoutAttempted := false;
    ghost var resetTried := false;
    applied := Reboot;
    if hasClient {
      logoutAttempted := initial == Reset;
      OthersMeanwhile(c, store, applied, resetTried);
    }
    RunningStarts(c, store);
    NoRoundYet(c.accepted);
    for attempt := 0 to attempts
      invariant Running(c, store, applied, resetTried) && c.accepting
      invariant old(c.accepted) <= c.accepted && c.starts == old(c.starts)
      invariant store.flash.nvs.faults >= old(store.flash.nvs.faults)
      invariant store.flash.nvs.faults == old(store.flash.nvs.faults) ==> Advancing(c.accepted, attempt, applied)
    {
      hide *;
      ghost var known, last := c.accepted, applied;
      var closed;
      closed, applied, logoutAttempted, resetTried := Round(c, store, applied, logoutAttempted, resetTried);
      if closed {
        RunningFacts(c, store, applied, resetTried);
        ClosedFacts(c, store, applied, resetTried);
        OthersMeanwhile(c, store, applied, resetTried);
        ProgressOutcome(store, applied, resetTried);
        return true, applied;
      }
      if store.flash.nvs.faults == old(store.flash.nvs.faults) {
        OneMoreRound(known, c.accepted, attempt, last, applied);
      }
    }
    if store.flash.nvs.faults == old(store.flash.nvs.faults) {
      ThreeRoundsSuffice(c.accepted, attempts, applied);
    }
    RunningFacts(c, store, applied, resetTried);
    ProgressIsSound(store, applied, resetTried);
    return false, applied;
  }

  /** The action a reboot owes to everything that was asked for. */
  ghost function Greatest(accepted: seq<MaintenanceAction>): MaintenanceAction {
    if Reset in accepted then Reset else if ClearSessions in accepted then ClearSessions else Reboot
  }

  lemma ClosedFacts(c: MaintenanceCoordinator, store: NvsStore, applied: MaintenanceAction, resetTried: bool)
    requires Running(c, store, applied, resetTried) && IsHighest(c.accepted, applied)
    ensures applied == Greatest(c.accepted) && (applied == Reboot ==> store.sealedAt.None? && store.acceptingWrites)
  {
    hide Progress, HandsOff;
    UnsealedAccepts(store, applied, resetTried);
  }

  lemma UnsealedAccepts(store: NvsStore, applied: MaintenanceAction, resetTried: bool)
    requires Progress(store, applied, resetTried)
    ensures store.acceptingWrites <==> store.sealedAt.None?
  {
  }

  lemma ProgressIsSound(store: NvsStore, applied: MaintenanceAction, resetTried: bool)
    requires Progress(store, applied, resetTried)
    ensures Sound(store)
    ensures store.sealedAt.Some? ==> MomentsSince(store.sealedAt.value, store.sealedSeen, store.flash.nvs.trail)
  {
  }

  /** Either nothing accepted is greater than what was applied, or something is. */
  lemma AfterClosing(accepted: seq<MaintenanceAction>, applied: MaintenanceAction, resetTried: bool, sealing: bool)
    requires Asked(accepted, applied, resetTried, sealing)
    ensures (forall a :: a in accepted ==> a.Rank() <= applied.Rank()) ==>
              IsHighest(accepted, applied) && (resetTried ==> applied == Reset)
    ensures !(forall a :: a in accepted ==> a.Rank() <= applied.Rank()) ==> Outranked(accepted, applied)
  {
    assert accepted[0] in accepted;
  }

  lemma ProgressOutcome(store: NvsStore, applied: MaintenanceAction, resetTried: bool)
    requires Progress(store, applied, resetTried) && (resetTried ==> applied == Reset)
    ensures Sound(store) && (store.acceptingWrites ==> store.Valid())
    ensures store.sealedAt.Some? ==> MomentsSince(store.sealedAt.value, store.sealedSeen, store.flash.nvs.trail)
    ensures applied != Reboot ==>
              && !store.acceptingWrites && store.sealedAt.Some?
              && Fit(store.p, store.sealedAt.value) && !ResetPending(store.sealedAt.value.control)
              && Outcome(applied, store.sealedAt.value, store.flash.nvs.image)
  {
  }

  /**
   * What the boot after maintenance finds: nothing at all after a reset; after a session clear, of a linked device, no
   * session and everything else as it was at the seal.
   */
  lemma NextBootAfterMaintenance(p: Platform, applied: MaintenanceAction, found: Image, left: Image)
    requires Fit(p, found) && !ResetPending(found.control) && Outcome(applied, found, left) && applied != Reboot
    ensures Reopenable(p, left)
    ensures applied == Reset ==> Opened(p, left) == left && forall ns :: ns != Control ==> Stored(p, left, ns) == map[]
    ensures applied == ClearSessions && LoadedDevice(p, found.linked) != Ok(None) ==>
              && Opened(p, left) == left && Stored(p, left, Sessions) == map[]
              && forall ns :: ns != Sessions ==> left.Get(ns) == found.Get(ns)
  {
    SpacesOfControlAndLinked(found);
    SpacesOfControlAndLinked(left);
    if applied == Reset {
      BlankIsFit(p, found);
      BlankHoldsNothing(found);
      BlankKeepsNothing(p, found);
      FitIsReopenable(p, left);
    } else {
      assert PartlyErased(found, Sessions, left);
      PartlyErasedShrinks(found, Sessions, left);
      ShrunkFit(p, found, left);
      FitIsReopenable(p, left);
      assert left.Get(Sessions) == map[];
    }
  }

  /**
   * Power is lost during maintenance of a linked store, and again during any number of boots after it. Then the next
   * boot can succeed, and what it leaves is the store found at the seal less some of its sessions, or a blank one.
   */
  lemma {:induction false} MaintenanceIsAllOrNothing(p: Platform, found: Image, lives: seq<Image>)
    requires Fit(p, found) && !ResetPending(found.control)
    requires LoadedDevice(p, found.linked).Ok? && LoadedDevice(p, found.linked).value.Some?
    requires |lives| > 0 && MaintenanceMoment(found, lives[0])
    requires forall i :: 0 <= i < |lives| - 1 ==> BootMoment(p, lives[i], lives[i + 1])
    ensures
      var last := lives[|lives| - 1];
      && MaintenanceMoment(found, last)
      && Reopenable(p, last)
      && Opened(p, last) == if PartlyErased(found, Sessions, last) then last else Blank(found)
  {
    hide Fit, LoadedDevice, PartlyErased, MaintenanceMoment, BootMoment, Blank, Opened, Reopenable;
    var last := lives[|lives| - 1];
    if |lives| > 1 {
      MaintenanceIsAllOrNothing(p, found, lives[..|lives| - 1]);
      MaintenanceMomentsPersist(p, found, lives[|lives| - 2], last);
    }
    MaintenanceMomentOpens(p, found, last);
  }

  lemma MaintenanceMomentOpens(p: Platform, found: Image, img: Image)
    requires Fit(p, found) && !ResetPending(found.control)
    requires LoadedDevice(p, found.linked).Ok? && LoadedDevice(p, found.linked).value.Some?
    requires MaintenanceMoment(found, img)
    ensures Reopenable(p, img) && Opened(p, img) == if PartlyErased(found, Sessions, img) then img else Blank(found)
  {
    if PartlyErased(found, Sessions, img) {
      ErasedSessionsStayLinked(p, found, img);
    } else {
      ResettingOpens(p, found, img);
    }
  }

  lemma ErasedSessionsStayLinked(p: Platform, found: Image, img: Image)
    requires Fit(p, found) && !ResetPending(found.control) && PartlyErased(found, Sessions, img)
    ensures Fit(p, img) && Reopenable(p, img) && img.control == found.control && img.linked == found.linked
  {
    PartlyErasedShrinks(found, Sessions, img);
    ShrunkFit(p, found, img);
    FitIsReopenable(p, img);
  }

  lemma MaintenanceMomentsPersist(p: Platform, found: Image, img: Image, next: Image)
    requires Fit(p, found) && !ResetPending(found.control)
    requires LoadedDevice(p, found.linked).Ok? && LoadedDevice(p, found.linked).value.Some?
    requires MaintenanceMoment(found, img) && BootMoment(p, img, next)
    ensures MaintenanceMoment(found, next)
  {
    if next != img {
      if PartlyErased(found, Sessions, img) {
        ErasedSessionsStayLinked(p, found, img);
      } else if img == Blank(found) {
        BlankStaysBlank(found, next);
      }
    }
  }
}
