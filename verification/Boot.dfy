/**
 * Opening the store: finishing an interrupted reset, discarding orphans, replaying the records, resolving the latest
 * key.
 */
module Boot {
  import opened Prelude
  import opened Records
  import opened Images
  import opened NvsPartition
  import opened FlashRecords
  import opened Lru
  import opened Mirrors
  import opened Replay
  import opened Store

  lemma ReplayableWhen(p: Platform, ns: Ns, space: Space)
    requires WellFormed(p.hash, space, MaxValue(ns)) && |space| <= MaxRecords(ns)
    ensures Replayable(p, ns, space) <==> AllPass(p, ns, Contents(p.hash, space))
  {
  }

  lemma NotReplayable(p: Platform, ns: Ns, space: Space)
    requires !WellFormed(p.hash, space, MaxValue(ns)) || |space| > MaxRecords(ns)
    ensures !Replayable(p, ns, space)
  {
  }

  method LoadCapped(flash: FlashNamespaces, ns: Ns, cap: nat) returns (r: Result<Mirror>)
    requires flash.nvs.Valid() && (ns == Identities || ns == Sessions)
    modifies flash.nvs`faults
    ensures flash.nvs.Valid() && flash.nvs.faults >= old(flash.nvs.faults)
    ensures r.Ok? ==> Replayable(flash.p, ns, flash.nvs.image.Get(ns)) && r.value.Capped?
                      && CappedMirror(flash.p.hasPsram, r.value.entries, r.value.order,
                                      Stored(flash.p, flash.nvs.image, ns), cap)
    ensures r.Ok? && !flash.p.hasPsram ==> |r.value.entries| == Min(|Stored(flash.p, flash.nvs.image, ns)|, cap)
    ensures r.Err? ==> flash.nvs.faults > old(flash.nvs.faults) || !Replayable(flash.p, ns, flash.nvs.image.Get(ns))
  {
    hide WellFormed, Replayable, AllPass, CappedMirror, Enumerates, Image.Get, Contents;
    ghost var space := flash.nvs.image.Get(ns);
    var entries := flash.LoadRecords(ns);
    if entries.Err? {
      if flash.nvs.faults == old(flash.nvs.faults) {
        NotReplayable(flash.p, ns, space);
      }
      return Err(entries.error);
    }
    ReplayableWhen(flash.p, ns, space);
    var ok, mirror, order := ReplayCapped(flash.p, ns, entries.value, cap, Stored(flash.p, flash.nvs.image, ns));
    return if ok then Ok(Capped(mirror, order)) else Err(Invalid);
  }

  method LoadNumbered(flash: FlashNamespaces, ns: Ns) returns (r: Result<map<u32, Bytes>>)
    requires flash.nvs.Valid() && (ns == Prekeys || ns == SignedPrekeys)
    modifies flash.nvs`faults
    ensures flash.nvs.Valid() && flash.nvs.faults >= old(flash.nvs.faults)
    ensures r.Ok? ==>
              && Replayable(flash.p, ns, flash.nvs.image.Get(ns))
              && NumberMirror(r.value, Stored(flash.p, flash.nvs.image, ns))
    ensures r.Err? ==> flash.nvs.faults > old(flash.nvs.faults) || !Replayable(flash.p, ns, flash.nvs.image.Get(ns))
  {
    hide WellFormed, Replayable, AllPass, NumberMirror, Enumerates, Image.Get, Contents;
    ghost var space := flash.nvs.image.Get(ns);
    var entries := flash.LoadRecords(ns);
    if entries.Err? {
      if flash.nvs.faults == old(flash.nvs.faults) {
        NotReplayable(flash.p, ns, space);
      }
      return Err(entries.error);
    }
    ReplayableWhen(flash.p, ns, space);
    var ok, mirror := ReplayNumbered(flash.p, ns, entries.value, Stored(flash.p, flash.nvs.image, ns));
    return if ok then Ok(mirror) else Err(Invalid);
  }

  method LoadSenderKeys(flash: FlashNamespaces) returns (r: Result<map<Bytes, Bytes>>)
    requires flash.nvs.Valid()
    modifies flash.nvs`faults
    ensures flash.nvs.Valid() && flash.nvs.faults >= old(flash.nvs.faults)
    ensures r.Ok? ==>
              && Replayable(flash.p, SenderKeys, flash.nvs.image.Get(SenderKeys))
              && r.value == Stored(flash.p, flash.nvs.image, SenderKeys)
    ensures r.Err? ==>
              flash.nvs.faults > old(flash.nvs.faults)
              || !Replayable(flash.p, SenderKeys, flash.nvs.image.Get(SenderKeys))
  {
    hide WellFormed, Replayable, AllPass, Enumerates, Image.Get, Contents;
    ghost var space := flash.nvs.image.Get(SenderKeys);
    var entries := flash.LoadRecords(SenderKeys);
    if entries.Err? {
      if flash.nvs.faults == old(flash.nvs.faults) {
        NotReplayable(flash.p, SenderKeys, space);
      }
      return Err(entries.error);
    }
    ReplayableWhen(flash.p, SenderKeys, space);
    var ok, mirror := ReplaySenderKeys(flash.p, entries.value, Stored(flash.p, flash.nvs.image, SenderKeys));
    return if ok then Ok(mirror) else Err(Invalid);
  }

  /** The sync keys of the replay, and the newest of the whole namespace as its best guess at the latest. */
  ghost predicate SyncReplayed(p: Platform, stored: map<Bytes, Bytes>, m: Mirror) {
    && m.OfSyncKeys? && SyncMirror(p, m.keys, m.keyOrder, m.latest, stored) && BestSoFar(p, stored, m.latest)
    && |m.keys| >= Min(|stored|, MIRROR_CAP)
  }

  /** Without PSRAM the replay fills the mirrors as far as there are records, or up to the cap. */
  ghost predicate Filled(p: Platform, img: Image, inner: StoreInner) {
    p.hasPsram || (|inner.identities| == Min(|Stored(p, img, Identities)|, MIRROR_CAP)
                   && |inner.syncKeys| >= Min(|Stored(p, img, SyncKeys)|, MIRROR_CAP))
  }

  /**
   * What a boot leaves in the mirrors without PSRAM: as many identities as there are or as fit, and every sync key if
   * they all fit; otherwise a full mirror of sync keys, or the latest alone.
   */
  ghost predicate Warm(p: Platform, img: Image, inner: StoreInner) {
    p.hasPsram || (|inner.identities| == Min(|Stored(p, img, Identities)|, MIRROR_CAP)
                   && WarmKeys(Stored(p, img, SyncKeys).Keys, inner.syncKeys, inner.latestSyncKeyId))
  }

  ghost predicate WarmKeys(stored: set<Bytes>, keys: map<Bytes, SyncKey>, latest: Option<Bytes>) {
    if |stored| <= MIRROR_CAP then keys.Keys == stored
    else |keys| == MIRROR_CAP || (latest.Some? && keys.Keys == {latest.value})
  }

  method LoadSyncKeys(flash: FlashNamespaces) returns (r: Result<Mirror>)
    requires flash.nvs.Valid()
    modifies flash.nvs`faults
    ensures flash.nvs.Valid() && flash.nvs.faults >= old(flash.nvs.faults)
    ensures r.Ok? ==> Replayable(flash.p, SyncKeys, flash.nvs.image.Get(SyncKeys))
                      && r.value.OfSyncKeys?
                      && SyncReplayed(flash.p, Stored(flash.p, flash.nvs.image, SyncKeys), r.value)
    ensures r.Err? ==>
              flash.nvs.faults > old(flash.nvs.faults) || !Replayable(flash.p, SyncKeys, flash.nvs.image.Get(SyncKeys))
  {
    hide WellFormed, Replayable, AllPass, Enumerates, Image.Get, Contents, SyncMirror, BestSoFar;
    ghost var space := flash.nvs.image.Get(SyncKeys);
    var entries := flash.LoadRecords(SyncKeys);
    if entries.Err? {
      if flash.nvs.faults == old(flash.nvs.faults) {
        NotReplayable(flash.p, SyncKeys, space);
      }
      return Err(entries.error);
    }
    ReplayableWhen(flash.p, SyncKeys, space);
    var ok, mirror, order, latest := ReplaySyncKeys(flash.p, entries.value, Stored(flash.p, flash.nvs.image, SyncKeys));
    return if ok then Ok(OfSyncKeys(mirror, order, latest)) else Err(Invalid);
  }

  /** All six namespaces, in boot order; any record that fails its checks fails the boot. */
  method LoadSignal(flash: FlashNamespaces, device: Option<Device>) returns (r: Result<StoreInner>)
    requires flash.nvs.Valid() && LoadedDevice(flash.p, flash.nvs.image.Get(Linked)) == Ok(device)
    modifies flash.nvs`faults
    ensures flash.nvs.Valid() && flash.nvs.faults >= old(flash.nvs.faults)
    ensures r.Ok? ==> SignalReplayable(flash.p, flash.nvs.image) && MirrorsOk(flash.p, flash.nvs.image, r.value)
    ensures r.Ok? ==> r.value.device == device
                      && BestSoFar(flash.p, Stored(flash.p, flash.nvs.image, SyncKeys), r.value.latestSyncKeyId)
    ensures r.Ok? ==> Filled(flash.p, flash.nvs.image, r.value)
    ensures r.Err? ==> flash.nvs.faults > old(flash.nvs.faults) || !SignalReplayable(flash.p, flash.nvs.image)
  {
    hide Replayable, Image.Get, Stored, CappedMirror, NumberMirror, SyncMirror, BestSoFar, LoadedDevice, Nvs.Valid,
         MirrorOk, MirrorsOk, Filled, SyncReplayed;
    var identities :- LoadCapped(flash, Identities, MIRROR_CAP);
    var sessions :- LoadCapped(flash, Sessions, 0);
    var prekeys :- LoadNumbered(flash, Prekeys);
    var signedPrekeys :- LoadNumbered(flash, SignedPrekeys);
    var senderKeys :- LoadSenderKeys(flash);
    var sync :- LoadSyncKeys(flash);
    var inner := StoreInner(device, identities.entries, identities.order, sessions.entries, sessions.order,
                            prekeys, signedPrekeys, senderKeys, sync.keys, sync.keyOrder, sync.latest);
    AllMirrored(flash.p, flash.nvs.image, inner);
    return Ok(inner);
  }

  lemma AllMirrored(p: Platform, img: Image, inner: StoreInner)
    requires LoadedDevice(p, img.Get(Linked)) == Ok(inner.device)
    requires CappedMirror(p.hasPsram, inner.identities, inner.identityOrder, Stored(p, img, Identities), MIRROR_CAP)
    requires CappedMirror(p.hasPsram, inner.sessions, inner.sessionOrder, Stored(p, img, Sessions), 0)
    requires NumberMirror(inner.prekeys, Stored(p, img, Prekeys))
    requires NumberMirror(inner.signedPrekeys, Stored(p, img, SignedPrekeys))
    requires inner.senderKeys == Stored(p, img, SenderKeys)
    requires SyncReplayed(p, Stored(p, img, SyncKeys),
                          OfSyncKeys(inner.syncKeys, inner.syncKeyOrder, inner.latestSyncKeyId))
    requires p.hasPsram || |inner.identities| == Min(|Stored(p, img, Identities)|, MIRROR_CAP)
    ensures MirrorsOk(p, img, inner) && BestSoFar(p, Stored(p, img, SyncKeys), inner.latestSyncKeyId)
    ensures Filled(p, img, inner)
  {
    hide Image.Get, Stored, CappedMirror, NumberMirror, SyncMirror, BestSoFar, LoadedDevice;
  }

  /** The marker can be read and names a stored key. */
  ghost predicate MarkerNames(img: Image, stored: map<Bytes, Bytes>) {
    && LoadedMarker(img.control).Ok? && LoadedMarker(img.control).value.Some?
    && LoadedMarker(img.control).value.value in stored
  }

  /**
   * Which key counts as the latest after a boot: one that flash holds whenever it holds any; the recorded one if flash
   * holds it and could be read, otherwise the one with the largest timestamp of the whole namespace.
   */
  ghost predicate LatestChosen(p: Platform, img: Image, latest: Option<Bytes>, faulted: bool) {
    var stored := Stored(p, img, SyncKeys);
    && (latest.None? <==> stored == map[])
    && (latest.Some? ==> latest.value in stored && (Newest(p, stored,
                                                           latest.value) || LoadedMarker(img.control) == Ok(latest)))
    && (!faulted && MarkerNames(img, stored) ==> LoadedMarker(img.control) == Ok(latest))
  }

  method LoadSyncKey(flash: FlashNamespaces, id: Bytes) returns (r: Result<Option<SyncKey>>)
    requires flash.Valid() && Fit(flash.p, flash.nvs.image)
    modifies flash.nvs`faults, flash.slots
    ensures flash.Valid() && flash.nvs.faults >= old(flash.nvs.faults)
    ensures r.Ok? ==> flash.nvs.faults == old(flash.nvs.faults)
    ensures r.Ok? ==> (r.value.Some? <==> id in Stored(flash.p, flash.nvs.image, SyncKeys))
    ensures r.Ok? && r.value.Some? ==> flash.p.parseSyncKey(Stored(flash.p, flash.nvs.image, SyncKeys)[id]) == r.value
    ensures r.Err? ==> flash.nvs.faults > old(flash.nvs.faults)
  {
    hide Stored, Fit, SlotsSound, Image.Get;
    var read :- flash.LoadRecord(SyncKeys, id);
    if read.None? {
      return Ok(None);
    }
    SyncKeyParses(flash.p, flash.nvs.image, id);
    var key := flash.p.parseSyncKey(read.value);
    return if key.None? then Err(Invalid) else Ok(key);
  }

  function OnlyLatest(keys: map<Bytes, SyncKey>, latest: Option<Bytes>): map<Bytes, SyncKey> {
    map k | k in keys && Some(k) == latest :: keys[k]
  }

  /** Keeping the latest key alone is a sound mirror of one entry at most. */
  lemma RetainLatest(p: Platform, keys: map<Bytes, SyncKey>, latest: Option<Bytes>, stored: map<Bytes, Bytes>)
    requires SyncEntries(p, keys, stored) && !p.hasPsram && (latest.Some? ==> latest.value in keys)
    ensures
      var order := if latest.Some? then [latest.value] else [];
      SyncMirror(p, OnlyLatest(keys, latest), order, latest, stored) && |OnlyLatest(keys, latest)| <= 1
  {
    var order := if latest.Some? then [latest.value] else [];
    assert Tracks(order, OnlyLatest(keys, latest)) by {
      if latest.Some? {
        assert OnlyLatest(keys, latest).Keys == {latest.value};
      } else {
        assert OnlyLatest(keys, latest) == map[];
      }
    }
    TracksCount(order, OnlyLatest(keys, latest));
  }

  /** The recorded latest key joins the mirror if the replay did not keep it; an unreadable record is ignored. */
  method AddRecorded(flash: FlashNamespaces, recorded: Option<Bytes>, keys: map<Bytes, SyncKey>, order: seq<Bytes>,
                     ghost stored: map<Bytes, Bytes>)
    returns (more: map<Bytes, SyncKey>, rest: seq<Bytes>)
    requires flash.Valid() && Fit(flash.p, flash.nvs.image)
    requires stored == Stored(flash.p, flash.nvs.image, SyncKeys) && Tracks(order, keys)
    requires SyncEntries(flash.p, keys, stored)
    modifies flash.nvs`faults, flash.slots
    ensures flash.Valid() && flash.nvs.faults >= old(flash.nvs.faults)
    ensures Tracks(rest, more) && SyncEntries(flash.p, more, stored)
    ensures keys.Keys <= more.Keys
    ensures recorded.Some? && flash.nvs.faults == old(flash.nvs.faults)
            ==> (recorded.value in more <==> recorded.value in stored)
  {
    hide Stored, Fit, SlotsSound, Touch;
    more, rest := keys, order;
    if recorded.Some? && recorded.value !in keys {
      var read := LoadSyncKey(flash, recorded.value);
      if read.Ok? && read.value.Some? {
        TouchTracks(order, keys, recorded.value, read.value.value);
        more, rest := keys[recorded.value := read.value.value], Touch(order, recorded.value);
      }
    }
  }

  /** A marker that cannot be read counts as none. */
  method LoadRecorded(flash: FlashNamespaces) returns (recorded: Option<Bytes>)
    requires flash.Valid()
    modifies flash.nvs`faults
    ensures flash.Valid() && flash.nvs.faults >= old(flash.nvs.faults)
    ensures recorded.Some? ==> LoadedMarker(flash.nvs.image.control) == Ok(recorded)
    ensures flash.nvs.faults == old(flash.nvs.faults) && LoadedMarker(flash.nvs.image.control).Ok?
            ==> LoadedMarker(flash.nvs.image.control) == Ok(recorded)
  {
    hide SlotsSound, LoadedMarker;
    var marker := flash.LoadLatestSyncKeyId();
    return if marker.Ok? then marker.value else None;
  }

  /** The recorded id wins if its key can be had. */
  method ChooseLatest(flash: FlashNamespaces, inner: StoreInner)
    returns (keys: map<Bytes, SyncKey>, order: seq<Bytes>, latest: Option<Bytes>)
    requires flash.Valid() && Fit(flash.p, flash.nvs.image) && MirrorsOk(flash.p, flash.nvs.image, inner)
    requires BestSoFar(flash.p, Stored(flash.p, flash.nvs.image, SyncKeys), inner.latestSyncKeyId)
    modifies flash.nvs`faults, flash.slots
    ensures flash.Valid() && flash.nvs.faults >= old(flash.nvs.faults)
    ensures LatestChosen(flash.p, flash.nvs.image, latest, flash.nvs.faults > old(flash.nvs.faults))
    ensures Tracks(order, keys) && SyncEntries(flash.p, keys, Stored(flash.p, flash.nvs.image, SyncKeys))
    ensures latest.Some? ==> latest.value in keys
    ensures flash.p.hasPsram ==> keys.Keys == Stored(flash.p, flash.nvs.image, SyncKeys).Keys
    ensures inner.syncKeys.Keys <= keys.Keys
  {
    hide *;
    SyncMirrorIs(flash.p, flash.nvs.image, inner);
    ghost var stored := Stored(flash.p, flash.nvs.image, SyncKeys);
    var recorded := LoadRecorded(flash);
    keys, order := AddRecorded(flash, recorded, inner.syncKeys, inner.syncKeyOrder, stored);
    latest := if recorded.Some? && recorded.value in keys then recorded else inner.latestSyncKeyId;
    SyncKeysAre(flash.p, keys, stored);
    LatestIsChosen(flash.p, flash.nvs.image, inner.latestSyncKeyId, recorded, keys, latest,
                   flash.nvs.faults > old(flash.nvs.faults));
  }

  /** The end of the replay: the latest key is settled and the mirror brought within its cap. */
  method ResolveLatest(flash: FlashNamespaces, inner: StoreInner) returns (resolved: StoreInner)
    requires flash.Valid() && Fit(flash.p, flash.nvs.image) && MirrorsOk(flash.p, flash.nvs.image, inner)
    requires BestSoFar(flash.p, Stored(flash.p, flash.nvs.image, SyncKeys), inner.latestSyncKeyId)
    requires Filled(flash.p, flash.nvs.image, inner)
    modifies flash.nvs`faults, flash.slots
    ensures flash.Valid() && flash.nvs.faults >= old(flash.nvs.faults)
    ensures MirrorsOk(flash.p, flash.nvs.image, resolved) && resolved.device == inner.device
    ensures LatestChosen(flash.p, flash.nvs.image, resolved.latestSyncKeyId, flash.nvs.faults > old(flash.nvs.faults))
    ensures Warm(flash.p, flash.nvs.image, resolved)
  {
    hide *;
    var found, used, latest := ChooseLatest(flash, inner);
    var keys, order := CapResolved(flash.p, found, used, latest, Stored(flash.p, flash.nvs.image, SyncKeys));
    ResolvedIsWarm(flash.p, flash.nvs.image, inner, found, keys, order, latest,
                   flash.nvs.faults > old(flash.nvs.faults));
    resolved := inner.(syncKeys := keys, syncKeyOrder := order, latestSyncKeyId := latest);
    SyncKeysResolved(flash.p, flash.nvs.image, inner, keys, order, latest);
  }

  /** Without PSRAM a mirror that came out too large keeps its latest key alone. */
  method CapResolved(p: Platform, keys: map<Bytes, SyncKey>, order: seq<Bytes>, latest: Option<Bytes>,
                     ghost stored: map<Bytes, Bytes>)
    returns (kept: map<Bytes, SyncKey>, rest: seq<Bytes>)
    requires Tracks(order, keys) && SyncEntries(p, keys, stored) && (latest.Some? ==> latest.value in keys)
    requires p.hasPsram ==> keys.Keys == stored.Keys
    ensures SyncMirror(p, kept, rest, latest, stored) && (p.hasPsram || |kept| <= MIRROR_CAP)
    ensures p.hasPsram || |keys| <= MIRROR_CAP ==> kept == keys && rest == order
    ensures !p.hasPsram && |keys| > MIRROR_CAP ==> kept == OnlyLatest(keys, latest)
  {
    if !p.hasPsram && |keys| > MIRROR_CAP {
      RetainLatest(p, keys, latest, stored);
      return OnlyLatest(keys, latest), if latest.Some? then [latest.value] else [];
    }
    return keys, order;
  }

  lemma KeptIsWarm(stored: set<Bytes>, found: map<Bytes, SyncKey>, kept: map<Bytes, SyncKey>, latest: Option<Bytes>)
    requires found.Keys <= stored && |found| >= Min(|stored|, MIRROR_CAP)
    requires if latest.None? then stored == {} else latest.value in found
    requires kept == if |found| > MIRROR_CAP then OnlyLatest(found, latest) else found
    ensures WarmKeys(stored, kept, latest)
  {
    CardinalitySubset(found.Keys, stored);
    if |stored| <= MIRROR_CAP {
      FullSubset(found.Keys, stored, |stored|);
    } else if |found| > MIRROR_CAP {
      assert kept.Keys == {latest.value};
    }
  }

  lemma ResolvedIsWarm(p: Platform, img: Image, inner: StoreInner, found: map<Bytes, SyncKey>,
                       kept: map<Bytes, SyncKey>, order: seq<Bytes>, latest: Option<Bytes>, faulted: bool)
    requires Filled(p, img, inner) && inner.syncKeys.Keys <= found.Keys
    requires SyncEntries(p, found, Stored(p, img, SyncKeys)) && LatestChosen(p, img, latest, faulted)
    requires latest.Some? ==> latest.value in found
    requires kept == if !p.hasPsram && |found| > MIRROR_CAP then OnlyLatest(found, latest) else found
    ensures Warm(p, img, inner.(syncKeys := kept, syncKeyOrder := order, latestSyncKeyId := latest))
  {
    SyncKeysAre(p, found, Stored(p, img, SyncKeys));
    CardinalitySubset(inner.syncKeys.Keys, found.Keys);
    hide Stored, SyncEntries, Newest, LoadedMarker, OnlyLatest, WarmKeys;
    if !p.hasPsram {
      KeptIsWarm(Stored(p, img, SyncKeys).Keys, found, kept, latest);
    }
  }

  lemma SyncMirrorIs(p: Platform, img: Image, inner: StoreInner)
    requires MirrorsOk(p, img, inner)
    ensures Tracks(inner.syncKeyOrder, inner.syncKeys) && SyncEntries(p, inner.syncKeys, Stored(p, img, SyncKeys))
    ensures inner.latestSyncKeyId.Some? ==> inner.latestSyncKeyId.value in inner.syncKeys
    ensures p.hasPsram ==> inner.syncKeys.Keys == Stored(p, img, SyncKeys).Keys
  {
    assert MirrorOk(p, img, inner, SyncKeys);
  }

  lemma SyncKeysAre(p: Platform, keys: map<Bytes, SyncKey>, stored: map<Bytes, Bytes>)
    requires SyncEntries(p, keys, stored)
    ensures keys.Keys <= stored.Keys
  {
  }

  lemma SyncKeysResolved(p: Platform, img: Image, x: StoreInner, keys: map<Bytes, SyncKey>, order: seq<Bytes>,
                         latest: Option<Bytes>)
    requires MirrorsOk(p, img, x) && SyncMirror(p, keys, order, latest, Stored(p, img, SyncKeys))
    ensures MirrorsOk(p, img, x.(syncKeys := keys, syncKeyOrder := order, latestSyncKeyId := latest))
  {
    hide Stored, SyncMirror;
    OnlySyncKeys(x, OfSyncKeys(keys, order, latest));
    hide SameInnerElsewhere;
    OtherMirrorsHold(p, img, img, x, x.(syncKeys := keys, syncKeyOrder := order, latestSyncKeyId := latest), SyncKeys);
  }

  lemma LatestIsChosen(p: Platform, img: Image, best: Option<Bytes>, recorded: Option<Bytes>, keys: map<Bytes, SyncKey>,
                       latest: Option<Bytes>, faulted: bool)
    requires BestSoFar(p, Stored(p, img, SyncKeys), best) && keys.Keys <= Stored(p, img, SyncKeys).Keys
    requires latest == if recorded.Some? && recorded.value in keys then recorded else best
    requires recorded.Some? ==> LoadedMarker(img.control) == Ok(recorded)
    requires !faulted && LoadedMarker(img.control).Ok? ==> LoadedMarker(img.control) == Ok(recorded)
    requires !faulted && recorded.Some? ==> (recorded.value in keys <==> recorded.value in Stored(p, img, SyncKeys))
    ensures LatestChosen(p, img, latest, faulted)
  {
    hide Stored, LoadedMarker;
  }

  ghost predicate NoSignal(img: Image) {
    forall ns :: IsSignal(ns) ==> img.Get(ns) == map[]
  }

  /** What a successful boot leaves on flash. */
  ghost function Opened(p: Platform, img: Image): Image {
    if ResetPending(img.control) then Blank(img)
    else if LoadedDevice(p, img.linked) == Ok(None) && !NoSignal(img) then SignalErased(img)
    else img
  }

  /** What a power loss during a boot from `start` can leave. */
  ghost predicate BootMoment(p: Platform, start: Image, img: Image) {
    || img == start
    || (ResetPending(start.control) && (Resetting(start, img) || img == Blank(start)))
    || (!ResetPending(start.control) && LoadedDevice(p, start.linked) == Ok(None) && LosingSignal(start, img))
  }

  lemma SpacesOfControlAndLinked(img: Image)
    ensures img.Get(Control) == img.control && img.Get(Linked) == img.linked
  {
  }

  /** Nothing but an interrupted reset or orphans makes a boot write, and every moment of it can be reopened in turn. */
  lemma BootMomentReopens(p: Platform, start: Image, img: Image)
    requires Reopenable(p, start) && BootMoment(p, start, img)
    ensures Reopenable(p, img)
  {
    SpacesOfControlAndLinked(start);
    SpacesOfControlAndLinked(img);
    BlankIsFit(p, start);
    FitIsReopenable(p, Blank(start));
  }

  /** An interrupted reset is completed before anything else is read. */
  method FinishReset(flash: FlashNamespaces) returns (r: Result<()>)
    requires flash.Valid()
    modifies flash.nvs, flash.slots
    ensures flash.Valid() && old(flash.nvs.trail) <= flash.nvs.trail && flash.nvs.faults >= old(flash.nvs.faults)
    ensures forall i :: |old(flash.nvs.trail)| <= i < |flash.nvs.trail| ==>
              BootMoment(flash.p, old(flash.nvs.image), flash.nvs.trail[i])
    ensures r.Ok? ==> ResetMarkReadable(old(flash.nvs.image).control)
    ensures r.Ok? && !ResetPending(old(flash.nvs.image).control) ==>
              flash.nvs.image == old(flash.nvs.image) && flash.nvs.trail == old(flash.nvs.trail)
    ensures r.Ok? && ResetPending(old(flash.nvs.image).control) ==> flash.nvs.image == Blank(old(flash.nvs.image))
    ensures r.Err? ==> flash.nvs.faults > old(flash.nvs.faults) || !ResetMarkReadable(old(flash.nvs.image).control)
  {
    hide SlotsSound, Resetting, Blank, LosingSignal;
    SpacesOfControlAndLinked(flash.nvs.image);
    var pending :- flash.nvs.ReadBlob(Control, RESET, 1);
    if pending.Some? {
      r := flash.CompleteReset();
      return;
    }
    return Ok(());
  }

  /** Without a linked device whatever Signal records are left are orphans, and are erased. */
  method DiscardOrphans(flash: FlashNamespaces) returns (r: Result<()>)
    requires flash.Valid()
    modifies flash.nvs, flash.slots
    ensures flash.Valid() && old(flash.nvs.trail) <= flash.nvs.trail && flash.nvs.faults >= old(flash.nvs.faults)
    ensures forall i :: |old(flash.nvs.trail)| <= i < |flash.nvs.trail| ==>
              LosingSignal(old(flash.nvs.image), flash.nvs.trail[i])
    ensures r.Ok? ==>
              flash.nvs.image
              == if NoSignal(old(flash.nvs.image)) then old(flash.nvs.image) else SignalErased(old(flash.nvs.image))
    ensures r.Err? ==> flash.nvs.faults > old(flash.nvs.faults)
  {
    hide SlotsSound, LosingSignal, Image.Get, SignalErased;
    var any :- flash.HasSignalRecords();
    if any {
      r := flash.EraseSignal();
      return;
    }
    return Ok(());
  }

  /** Replays everything behind a linked device. */
  method Replayed(flash: FlashNamespaces, device: Option<Device>) returns (r: Result<StoreInner>)
    requires flash.Valid() && ResetMarkReadable(flash.nvs.image.Get(Control))
    requires LoadedDevice(flash.p, flash.nvs.image.Get(Linked)) == Ok(device)
    modifies flash.nvs`faults, flash.slots
    ensures flash.Valid() && flash.nvs.faults >= old(flash.nvs.faults)
    ensures r.Ok? ==>
              Fit(flash.p, flash.nvs.image) && MirrorsOk(flash.p, flash.nvs.image, r.value) && r.value.device == device
    ensures r.Ok? ==>
              LatestChosen(flash.p, flash.nvs.image, r.value.latestSyncKeyId, flash.nvs.faults > old(flash.nvs.faults))
    ensures r.Ok? ==> Warm(flash.p, flash.nvs.image, r.value)
    ensures r.Err? ==> flash.nvs.faults > old(flash.nvs.faults) || !SignalReplayable(flash.p, flash.nvs.image)
  {
    hide SlotsSound, Image.Get, LoadedDevice, SignalReplayable, MirrorsOk, LatestChosen, BestSoFar, Stored,
         ResetMarkReadable;
    var inner :- LoadSignal(flash, device);
    ghost var faultsBefore := flash.nvs.faults;
    var resolved := ResolveLatest(flash, inner);
    ChosenDespiteFaults(flash.p, flash.nvs.image, resolved.latestSyncKeyId,
                        flash.nvs.faults > faultsBefore, flash.nvs.faults > old(flash.nvs.faults));
    return Ok(resolved);
  }

  lemma ChosenDespiteFaults(p: Platform, img: Image, latest: Option<Bytes>, few: bool, more: bool)
    requires LatestChosen(p, img, latest, few) && (few ==> more)
    ensures LatestChosen(p, img, latest, more)
  {
  }

  lemma UnlinkedIsFit(p: Platform, img: Image)
    requires ResetMarkReadable(img.Get(Control)) && LoadedDevice(p, img.Get(Linked)) == Ok(None) && NoSignal(img)
    ensures Fit(p, img) && MirrorsOk(p, img, NOTHING) && LatestChosen(p, img, None, false)
  {
    NothingMirrorsBlank(p, img);
    hide Image.Get;
    forall ns | IsSignal(ns) ensures Replayable(p, ns, img.Get(ns)) {
      EmptyIsReplayable(p, ns);
    }
    assert MirrorOk(p, img, NOTHING, SyncKeys);
    assert Stored(p, img, SyncKeys) == map[] by {
      assert img.Get(SyncKeys) == map[];
    }
  }

  lemma NothingIsWarm(p: Platform, img: Image)
    requires NoSignal(img)
    ensures Warm(p, img, NOTHING)
  {
    assert img.Get(Identities) == map[] && img.Get(SyncKeys) == map[];
    EmptyContents(p.hash);
    hide Image.Get, Contents;
  }

  lemma SweptIsUnlinked(p: Platform, img: Image)
    requires ResetMarkReadable(img.control) && LoadedDevice(p, img.linked) == Ok(None)
    ensures
      var swept := if NoSignal(img) then img else SignalErased(img);
      && swept.control == swept.Get(Control) && swept.linked == swept.Get(Linked)
      && ResetMarkReadable(swept.control) && LoadedDevice(p, swept.linked) == Ok(None) && NoSignal(swept)
  {
    assert RESET != LATEST;
  }

  lemma NotPendingWhenSwept(p: Platform, img: Image)
    requires !ResetPending(img.control)
    ensures !ResetPending(img.Get(Control)) && !ResetPending(SignalErased(img).Get(Control))
  {
  }

  /** Discards the orphans of a store that is not linked; what remains is a store with nothing in it. */
  method Unlinked(flash: FlashNamespaces) returns (r: Result<StoreInner>)
    requires flash.Valid() && ResetMarkReadable(flash.nvs.image.control)
    requires LoadedDevice(flash.p, flash.nvs.image.linked) == Ok(None)
    modifies flash.nvs, flash.slots
    ensures flash.Valid() && old(flash.nvs.trail) <= flash.nvs.trail && flash.nvs.faults >= old(flash.nvs.faults)
    ensures forall i :: |old(flash.nvs.trail)| <= i < |flash.nvs.trail| ==>
              LosingSignal(old(flash.nvs.image), flash.nvs.trail[i])
    ensures r.Ok? ==>
              r.value == NOTHING && Fit(flash.p, flash.nvs.image) && MirrorsOk(flash.p, flash.nvs.image, NOTHING)
    ensures r.Ok? ==> LatestChosen(flash.p, flash.nvs.image, None, false) && Warm(flash.p, flash.nvs.image, NOTHING)
    ensures r.Ok? ==>
              flash.nvs.image
              == if NoSignal(old(flash.nvs.image)) then old(flash.nvs.image) else SignalErased(old(flash.nvs.image))
    ensures r.Err? ==> flash.nvs.faults > old(flash.nvs.faults)
  {
    hide SlotsSound, Image.Get, LoadedDevice, MirrorsOk, LatestChosen, ResetMarkReadable, NoSignal, SignalErased,
         LosingSignal, Fit;
    hide Warm;
    SweptIsUnlinked(flash.p, flash.nvs.image);
    var swept := DiscardOrphans(flash);
    if swept.Err? {
      return Err(swept.error);
    }
    UnlinkedIsFit(flash.p, flash.nvs.image);
    NothingIsWarm(flash.p, flash.nvs.image);
    return Ok(NOTHING);
  }

  /** Either kind of boot, once no reset is pending. */
  method LoadInner(flash: FlashNamespaces) returns (r: Result<StoreInner>)
    requires flash.Valid() && ResetMarkReadable(flash.nvs.image.control) && !ResetPending(flash.nvs.image.control)
    modifies flash.nvs, flash.slots
    ensures flash.Valid() && old(flash.nvs.trail) <= flash.nvs.trail && flash.nvs.faults >= old(flash.nvs.faults)
    ensures forall i :: |old(flash.nvs.trail)| <= i < |flash.nvs.trail| ==>
              BootMoment(flash.p, old(flash.nvs.image), flash.nvs.trail[i])
    ensures r.Ok? ==> Fit(flash.p, flash.nvs.image) && MirrorsOk(flash.p, flash.nvs.image, r.value)
    ensures r.Ok? ==>
              LatestChosen(flash.p, flash.nvs.image, r.value.latestSyncKeyId, flash.nvs.faults > old(flash.nvs.faults))
    ensures r.Ok? ==> Warm(flash.p, flash.nvs.image, r.value)
    ensures r.Ok? ==>
              flash.nvs.image == Opened(flash.p, old(flash.nvs.image)) && Reopenable(flash.p, old(flash.nvs.image))
    ensures r.Ok? ==> !ResetPending(flash.nvs.image.Get(Control))
    ensures r.Err? ==> flash.nvs.faults > old(flash.nvs.faults) || !Reopenable(flash.p, old(flash.nvs.image))
  {
    hide SlotsSound, Image.Get, LoadedDevice, SignalReplayable, MirrorsOk, LatestChosen, ResetMarkReadable, NoSignal,
         SignalErased, LosingSignal;
    SpacesOfControlAndLinked(flash.nvs.image);
    ghost var start := flash.nvs.image;
    var device := flash.LoadDevice();
    if device.Err? {
      return Err(device.error);
    }
    if device.value.Some? {
      r := Replayed(flash, device.value);
      return;
    }
    r := Unlinked(flash);
    if r.Ok? {
      NotPendingWhenSwept(flash.p, start);
      ChosenDespiteFaults(flash.p, flash.nvs.image, None, false, flash.nvs.faults > old(flash.nvs.faults));
    }
  }

  /** The interrupted reset first, then everything else. */
  method OpenInner(flash: FlashNamespaces) returns (r: Result<StoreInner>)
    requires flash.Valid() && flash.nvs.trail == [flash.nvs.image]
    modifies flash.nvs, flash.slots
    ensures flash.Valid() && flash.nvs.faults >= old(flash.nvs.faults)
    ensures forall i :: 0 <= i < |flash.nvs.trail| ==> BootMoment(flash.p, old(flash.nvs.image), flash.nvs.trail[i])
    ensures r.Ok? ==> Fit(flash.p, flash.nvs.image) && MirrorsOk(flash.p, flash.nvs.image, r.value)
    ensures r.Ok? ==>
              LatestChosen(flash.p, flash.nvs.image, r.value.latestSyncKeyId, flash.nvs.faults > old(flash.nvs.faults))
    ensures r.Ok? ==> Warm(flash.p, flash.nvs.image, r.value)
    ensures r.Ok? ==>
              flash.nvs.image == Opened(flash.p, old(flash.nvs.image)) && Reopenable(flash.p, old(flash.nvs.image))
    ensures r.Ok? ==> !ResetPending(flash.nvs.image.Get(Control))
    ensures r.Err? ==> flash.nvs.faults > old(flash.nvs.faults) || !Reopenable(flash.p, old(flash.nvs.image))
  {
    ghost var p, start := flash.p, flash.nvs.image;
    SpacesOfControlAndLinked(start);
    NotReadableNotReopenable(p, start);
    hide SlotsSound, Reopenable, Fit, MirrorsOk, LatestChosen, ResetMarkReadable, BootMoment, Opened, Blank;
    var finished := FinishReset(flash);
    if finished.Err? {
      return Err(finished.error);
    }
    ghost var middle, faultsBefore := flash.nvs.image, flash.nvs.faults;
    AfterFinishing(p, start, middle);
    r := LoadInner(flash);
    forall img | BootMoment(p, middle, img) ensures BootMoment(p, start, img) {
      LaterMoment(p, start, middle, img);
    }
    if r.Ok? {
      ChosenDespiteFaults(p, flash.nvs.image, r.value.latestSyncKeyId,
                          flash.nvs.faults > faultsBefore, flash.nvs.faults > old(flash.nvs.faults));
    }
  }

  /**
   * Opening the store. It succeeds whenever the medium does not fail and the contents can be reopened; the mirrors then
   * agree with flash, the latest key is settled, and a power loss at any moment of it leaves contents that can be
   * reopened again.
   */
  method Open(p: Platform, nvs: Nvs) returns (r: Result<NvsStore>)
    requires nvs.Valid() && nvs.trail == [nvs.image]
    modifies nvs
    ensures nvs.Valid() && nvs.faults >= old(nvs.faults)
    ensures forall i :: 0 <= i < |nvs.trail| ==> BootMoment(p, old(nvs.image), nvs.trail[i])
    ensures r.Ok? ==> fresh(r.value) && fresh(r.value.flash) && fresh(r.value.flash.slots) && r.value.flash.nvs == nvs
    ensures r.Ok? ==> r.value.Valid() && r.value.p == p && r.value.acceptingWrites
    ensures r.Ok? ==> nvs.image == Opened(p, old(nvs.image)) && Reopenable(p, old(nvs.image))
    ensures r.Ok? ==> LatestChosen(p, nvs.image, r.value.inner.latestSyncKeyId, nvs.faults > old(nvs.faults))
    ensures r.Ok? ==> Warm(p, nvs.image, r.value.inner)
    ensures r.Err? ==> nvs.faults > old(nvs.faults) || !Reopenable(p, old(nvs.image))
  {
    hide SlotsSound, Reopenable, Fit, MirrorsOk, LatestChosen, BootMoment, Opened;
    ghost var start := nvs.image;
    var flash := new FlashNamespaces(p, nvs);
    var inner := OpenInner(flash);
    if inner.Err? {
      return Err(inner.error);
    }
    AllMomentsReopen(p, start, nvs.trail);
    var store := new NvsStore(flash, inner.value);
    return Ok(store);
  }

  lemma NotReadableNotReopenable(p: Platform, img: Image)
    ensures !ResetMarkReadable(img.control) ==> !Reopenable(p, img)
    ensures BootMoment(p, img, img)
  {
    SpacesOfControlAndLinked(img);
  }

  /** Where a boot stands once no reset is pending any more. */
  ghost predicate Finished(start: Image, middle: Image) {
    middle == if ResetPending(start.control) then Blank(start) else start
  }

  lemma AfterFinishing(p: Platform, start: Image, middle: Image)
    requires Finished(start, middle) && ResetMarkReadable(start.control)
    ensures ResetMarkReadable(middle.control) && !ResetPending(middle.control)
    ensures Opened(p, middle) == Opened(p, start)
    ensures Reopenable(p, middle) <==> Reopenable(p, start)
  {
    SpacesOfControlAndLinked(start);
    SpacesOfControlAndLinked(middle);
    BlankIsFit(p, start);
    BlankHoldsNothing(start);
    FitIsReopenable(p, Blank(start));
  }

  /** A blank store loses nothing more. */
  lemma BlankStaysBlank(start: Image, img: Image)
    requires LosingSignal(Blank(start), img)
    ensures img == Blank(start)
  {
    BlankHoldsNothing(start);
    assert forall ns | ns != Control :: SubMap(img.Get(ns), map[]) && img.Get(ns) == map[];
    assert img.identities == img.Get(Identities) && img.sessions == img.Get(Sessions);
    assert img.prekeys == img.Get(Prekeys);
    assert img.signedPrekeys == img.Get(SignedPrekeys) && img.senderKeys == img.Get(SenderKeys);
    assert img.syncKeys == img.Get(SyncKeys);
    assert Blank(start).control - {LATEST} == Blank(start).control;
  }

  lemma LaterMoment(p: Platform, start: Image, middle: Image, img: Image)
    requires Finished(start, middle) && BootMoment(p, middle, img)
    ensures BootMoment(p, start, img)
  {
    if ResetPending(start.control) && img != middle {
      BlankStaysBlank(start, img);
    }
  }

  lemma AllMomentsReopen(p: Platform, start: Image, trail: seq<Image>)
    requires Reopenable(p, start) && forall i :: 0 <= i < |trail| ==> BootMoment(p, start, trail[i])
    ensures AllReopenable(p, trail)
  {
    forall i | 0 <= i < |trail| ensures Reopenable(p, trail[i]) {
      BootMomentReopens(p, start, trail[i]);
    }
  }

  /** One more boot, cut short or not, after a reset was cut short. */
  lemma ResetMomentsPersist(p: Platform, before: Image, img: Image, next: Image)
    requires Fit(p, before) && !ResetPending(before.control) && LoadedDevice(p, before.linked).Ok?
    requires LoadedDevice(p, before.linked).value.Some?
    requires ResetMoment(before, img) && BootMoment(p, img, next)
    ensures ResetMoment(before, next)
  {
    if img != before && img == Blank(before) && next != img {
      BlankStaysBlank(before, next);
    }
  }

  /**
   * Factory reset is all-or-nothing. `lives[0]` is any content a power loss during the reset of a linked store can
   * leave (the whole of it included), and each later one any content a power loss during the following boot can
   * leave. Then the next boot can succeed, and what it leaves is the store as it was or a blank one, nothing in
   * between.
   */
  lemma {:induction false} ResetIsAllOrNothing(p: Platform, before: Image, lives: seq<Image>)
    requires Fit(p, before) && !ResetPending(before.control)
    requires LoadedDevice(p, before.linked).Ok? && LoadedDevice(p, before.linked).value.Some?
    requires |lives| > 0 && ResetMoment(before, lives[0])
    requires forall i :: 0 <= i < |lives| - 1 ==> BootMoment(p, lives[i], lives[i + 1])
    ensures
      var last := lives[|lives| - 1];
      && ResetMoment(before, last)
      && Reopenable(p, last)
      && Opened(p, last) == if last == before then before else Blank(before)
  {
    var last := lives[|lives| - 1];
    if |lives| > 1 {
      ResetIsAllOrNothing(p, before, lives[..|lives| - 1]);
      ResetMomentsPersist(p, before, lives[|lives| - 2], last);
    }
    FitIsReopenable(p, before);
    if last != before {
      ResettingOpens(p, before, last);
    }
  }

  /** What a power loss can leave of a store that was not linked, in a reset or in the boots after it. */
  ghost predicate UnlinkedMoment(before: Image, img: Image) {
    LosingSignal(before, img) || Resetting(before, img) || img == Blank(before)
  }

  lemma UnlinkedMomentsPersist(p: Platform, before: Image, img: Image, next: Image)
    requires !ResetPending(before.control) && LoadedDevice(p, before.linked) == Ok(None)
    requires UnlinkedMoment(before, img) && BootMoment(p, img, next)
    ensures UnlinkedMoment(before, next)
  {
    hide LoadedDevice;
    if LosingSignal(before, img) {
      assert !ResetPending(img.control);
      if next != img {
        ShrunkTransitive(before, img, next);
      }
    } else if img == Blank(before) && next != img {
      BlankStaysBlank(before, next);
    }
  }

  /**
   * Without a linked device nothing survives anyway: whatever was reset, and cut short, the next boot leaves no
   * Signal record.
   */
  lemma {:induction false} UnlinkedResetLeavesNothing(p: Platform, before: Image, lives: seq<Image>)
    requires Fit(p, before) && !ResetPending(before.control) && LoadedDevice(p, before.linked) == Ok(None)
    requires |lives| > 0 && ResetMoment(before, lives[0])
    requires forall i :: 0 <= i < |lives| - 1 ==> BootMoment(p, lives[i], lives[i + 1])
    ensures
      var last := lives[|lives| - 1];
      && UnlinkedMoment(before, last) && Reopenable(p, last)
      && NoSignal(Opened(p, last)) && LoadedDevice(p, Opened(p, last).linked) == Ok(None)
      && !ResetPending(Opened(p, last).control)
  {
    var last := lives[|lives| - 1];
    assert LosingSignal(before, before);
    if |lives| > 1 {
      UnlinkedResetLeavesNothing(p, before, lives[..|lives| - 1]);
      UnlinkedMomentsPersist(p, before, lives[|lives| - 2], last);
    }
    UnlinkedOpens(p, before, last);
  }

  lemma UnlinkedOpens(p: Platform, before: Image, img: Image)
    requires Fit(p, before) && !ResetPending(before.control) && LoadedDevice(p, before.linked) == Ok(None)
    requires UnlinkedMoment(before, img)
    ensures Reopenable(p, img)
    ensures NoSignal(Opened(p, img)) && LoadedDevice(p, Opened(p, img).linked) == Ok(None)
    ensures !ResetPending(Opened(p, img).control)
  {
    if LosingSignal(before, img) {
      ShrunkFit(p, before, img);
      FitIsReopenable(p, img);
      FitFacts(p, img);
      hide Fit, Shrunk, LoadedDevice, NoSignal, SignalErased, ResetMarkReadable;
      SweptIsUnlinked(p, img);
      NotPendingWhenSwept(p, img);
      SpacesOfControlAndLinked(SignalErased(img));
      SpacesOfControlAndLinked(img);
    } else {
      ResettingOpens(p, before, img);
    }
  }

  lemma FitFacts(p: Platform, img: Image)
    requires Fit(p, img)
    ensures ResetMarkReadable(img.control)
  {
    SpacesOfControlAndLinked(img);
  }

  lemma ResettingOpens(p: Platform, before: Image, img: Image)
    requires Resetting(before, img) || img == Blank(before)
    ensures Reopenable(p, img) && Opened(p, img) == Blank(before)
    ensures NoSignal(Blank(before)) && LoadedDevice(p, Blank(before).linked) == Ok(None)
    ensures !ResetPending(Blank(before).control)
  {
    SpacesOfControlAndLinked(img);
    BlankIsFit(p, before);
    BlankHoldsNothing(before);
    FitIsReopenable(p, Blank(before));
    hide Replayable, LoadedDevice;
  }

  /** Nothing of the old store is left in a blank one: no device, no Signal record, no marker of either kind. */
  lemma BlankKeepsNothing(p: Platform, img: Image)
    ensures forall ns :: ns != Control ==> Stored(p, Blank(img), ns) == map[]
    ensures LoadedDevice(p, Blank(img).linked) == Ok(None) && LoadedMarker(Blank(img).control) == Ok(None)
    ensures !ResetPending(Blank(img).control)
  {
    BlankIsFit(p, img);
    BlankHoldsNothing(img);
  }

  /** `latest` is the only key a boot that meets no fault can settle on. */
  ghost predicate SoleChoice(p: Platform, img: Image, latest: Option<Bytes>) {
    forall other :: LatestChosen(p, img, other, false) ==> other == latest
  }

  /** `latest` has a larger timestamp than every other stored key, or nothing is stored and it is none. */
  ghost predicate SoleNewest(p: Platform, stored: map<Bytes, Bytes>, latest: Option<Bytes>) {
    if stored == map[] then latest == None
    else latest.Some? && Newest(p, stored, latest.value) && forall k :: Newest(p, stored, k) ==> k == latest.value
  }

  lemma {:induction false} SomeKeyIsNewest(p: Platform, stored: map<Bytes, Bytes>) returns (id: Bytes)
    requires stored != map[] && forall k :: k in stored ==> p.parseSyncKey(stored[k]).Some?
    ensures Newest(p, stored, id)
    decreases |stored.Keys|
  {
    id :| id in stored;
    var rest := stored - {id};
    assert stored.Keys == rest.Keys + {id} && forall k :: k in rest ==> rest[k] == stored[k];
    if rest != map[] {
      assert |rest.Keys| < |stored.Keys|;
      var best := SomeKeyIsNewest(p, rest);
      if p.parseSyncKey(stored[best]).value.timestamp >= p.parseSyncKey(stored[id]).value.timestamp {
        id := best;
      }
    }
  }

  lemma StoredKeysParse(p: Platform, img: Image)
    requires Fit(p, img)
    ensures forall k :: k in Stored(p, img, SyncKeys) ==> p.parseSyncKey(Stored(p, img, SyncKeys)[k]).Some?
  {
    assert Replayable(p, SyncKeys, img.Get(SyncKeys));
  }

  /**
   * The next boot is bound to agree with a RAM that takes `latest` for the latest key exactly when the marker names a
   * stored key and that is `latest`, or the marker names none and `latest` alone is the newest.
   */
  lemma NextBootAgreesIff(p: Platform, img: Image, latest: Option<Bytes>)
    requires Fit(p, img)
    ensures
      var stored := Stored(p, img, SyncKeys);
      SoleChoice(p, img, latest)
      <==> if MarkerNames(img, stored) then LoadedMarker(img.control) == Ok(latest) else SoleNewest(p, stored, latest)
  {
    hide LoadedMarker, Stored, Fit, Newest;
    StoredKeysParse(p, img);
    var stored := Stored(p, img, SyncKeys);
    if MarkerNames(img, stored) {
      assert LatestChosen(p, img, LoadedMarker(img.control).value, false);
    } else {
      UnmarkedChoice(p, img);
      hide LatestChosen;
      if stored == map[] {
        assert LatestChosen(p, img, None, false);
      } else {
        var best := SomeKeyIsNewest(p, stored);
        assert LatestChosen(p, img, Some(best), false);
        assert forall k :: LatestChosen(p, img, Some(k), false) <==> Newest(p, stored, k);
      }
    }
  }

  /** Where the marker names no stored key, any newest key may be chosen and no other. */
  lemma UnmarkedChoice(p: Platform, img: Image)
    requires !MarkerNames(img, Stored(p, img, SyncKeys))
    ensures forall latest :: LatestChosen(p, img, latest, false) <==> BestSoFar(p, Stored(p, img, SyncKeys), latest)
  {
    hide LoadedMarker, Stored;
  }

  /** A store with a linked device and no reset under way: a boot leaves it as it is. */
  ghost predicate InUse(p: Platform, img: Image) {
    Fit(p, img) && !ResetPending(img.control) && LoadedDevice(p, img.linked).value.Some?
  }

  lemma MarkingKeepsInUse(p: Platform, before: Image, id: Bytes)
    requires InUse(p, before) && |id| <= MAX_KEY_LEN
    ensures
      var torn := WithLatest(before, id);
      && InUse(p, torn) && Reopenable(p, torn) && Opened(p, torn) == torn
      && Stored(p, torn, SyncKeys) == Stored(p, before, SyncKeys) && LoadedMarker(torn.control) == Ok(Some(id))
  {
    DecodeEncode(LATEST_KEY, id);
    hide EncodeRecord, DecodeRecord;
    var torn := WithLatest(before, id);
    assert forall ns | ns != Control :: torn.Get(ns) == before.Get(ns);
    SpacesOfControlAndLinked(before);
    SpacesOfControlAndLinked(torn);
    assert RESET != LATEST;
  }

  /**
   * The second of the two writes of a sync key failed, or power was lost before it. The boot after that believes the
   * marker if a key of that id was stored before, under its old value; otherwise it takes the newest key there is. So
   * it is bound to agree with a RAM that still takes `latest` for the latest key exactly when `latest` is that id, or
   * no key of that id is stored and `latest` alone is the newest.
   */
  lemma LatestAfterTornSyncKey(p: Platform, before: Image, id: Bytes, latest: Option<Bytes>)
    requires InUse(p, before) && |id| <= MAX_KEY_LEN
    ensures
      var stored, torn := Stored(p, before, SyncKeys), WithLatest(before, id);
      && Stored(p, torn, SyncKeys) == stored && Reopenable(p, torn) && Opened(p, torn) == torn
      && (LatestChosen(p, torn, latest, false) <==> if id in stored then latest == Some(id) else BestSoFar(p, stored,
                                                                                                           latest))
      && (SoleChoice(p, torn, latest) <==> if id in stored then latest == Some(id) else SoleNewest(p, stored, latest))
  {
    MarkingKeepsInUse(p, before, id);
    NextBootAgreesIff(p, WithLatest(before, id), latest);
    hide LoadedMarker, Contents, Image.Get, Fit, WithLatest;
  }

  /** A store that holds just two sync keys, `b` being the latest. */
  ghost function TwoSyncKeys(p: Platform, linked: Space, a: Bytes, x: Bytes, b: Bytes, y: Bytes): Image
    requires |a| <= MAX_KEY_LEN && |b| <= MAX_KEY_LEN
  {
    var linkedOnly := Image(map[], linked, map[], map[], map[], map[], map[], map[]);
    Put(p, Put(p, WithLatest(linkedOnly, b), SyncKeys, a, x), SyncKeys, b, y)
  }

  /**
   * A failing input: with the keys `a` and `b` on flash and `b` the latest, on flash and in RAM, `a` is written again
   * and its second write fails. RAM keeps `b`, the next boot takes `a`.
   */
  lemma RewritingStoredKeyDisagrees(p: Platform, linked: Space, a: Bytes, x: Bytes, b: Bytes, y: Bytes)
    requires LoadedDevice(p, linked).Ok? && LoadedDevice(p, linked).value.Some?
    requires |a| <= MAX_KEY_LEN && |b| <= MAX_KEY_LEN && KeyName(p.hash, a) != KeyName(p.hash, b)
    requires |x| <= MAX_RECORD_LEN && p.parseSyncKey(x).Some? && |y| <= MAX_RECORD_LEN && p.parseSyncKey(y).Some?
    ensures
      var before := TwoSyncKeys(p, linked, a, x, b, y);
      && InUse(p, before) && SoleChoice(p, before, Some(b))
      && SoleChoice(p, WithLatest(before, a), Some(a)) && Opened(p, WithLatest(before, a)) == WithLatest(before, a)
  {
    var start := Image(map[], linked, map[], map[], map[], map[], map[], map[]);
    LinkedOnlyInUse(p, start);
    var marked := WithLatest(start, b);
    var one := Put(p, marked, SyncKeys, a, x);
    var before := Put(p, one, SyncKeys, b, y);
    assert before == TwoSyncKeys(p, linked, a, x, b, y);
    hide *;
    MarkingKeepsInUse(p, start, b);
    SameSyncKeySpace(start, b);
    PutInUse(p, marked, a, x);
    PutInUse(p, one, b, y);
    MarkerNamesStored(p, before, b);
    NextBootAgreesIff(p, before, Some(b));
    LatestAfterTornSyncKey(p, before, a, Some(a));
  }

  lemma SameSyncKeySpace(img: Image, id: Bytes)
    requires |id| <= MAX_KEY_LEN
    ensures WithLatest(img, id).Get(SyncKeys) == img.Get(SyncKeys)
  {
  }

  lemma MarkerNamesStored(p: Platform, img: Image, id: Bytes)
    requires InUse(p, img) && LoadedMarker(img.control) == Ok(Some(id)) && id in Stored(p, img, SyncKeys)
    ensures MarkerNames(img, Stored(p, img, SyncKeys)) && Fit(p, img)
  {
    hide LoadedMarker, Contents, Fit;
  }

  lemma LinkedOnlyInUse(p: Platform, start: Image)
    requires LoadedDevice(p, start.linked).Ok? && LoadedDevice(p, start.linked).value.Some?
    requires start.control == map[] && NoSignal(start)
    ensures InUse(p, start) && start.Get(SyncKeys) == map[]
  {
    SpacesOfControlAndLinked(start);
    forall ns | IsSignal(ns) ensures Replayable(p, ns, start.Get(ns)) {
      EmptyIsReplayable(p, ns);
    }
    assert start.Get(SyncKeys) == map[];
  }

  /** Filing a sync key under a free name. */
  lemma PutInUse(p: Platform, img: Image, key: Bytes, value: Bytes)
    requires InUse(p, img) && |key| <= MAX_KEY_LEN && |value| <= MAX_RECORD_LEN && p.parseSyncKey(value).Some?
    requires KeyName(p.hash, key) !in img.Get(SyncKeys) && |img.Get(SyncKeys)| < 2
    ensures
      var next := Put(p, img, SyncKeys, key, value);
      && InUse(p, next) && next.control == img.control && |next.Get(SyncKeys)| == |img.Get(SyncKeys)| + 1
      && next.Get(SyncKeys).Keys == img.Get(SyncKeys).Keys + {KeyName(p.hash, key)}
      && Stored(p, next, SyncKeys) == Stored(p, img, SyncKeys)[key := value]
  {
    hide *;
    FreeSlot(p, img, key, |value|);
    PutSpaces(p, img, key, value);
    InUseIsFit(p, img);
    SyncKeyFits(p, key, value);
    PutKeepsFit(p, img, SyncKeys, key, value);
    StillInUse(p, img, Put(p, img, SyncKeys, key, value));
    UpdateCount(img.Get(SyncKeys), KeyName(p.hash, key), EncodeRecord(key, value).value);
  }

  lemma SyncKeyFits(p: Platform, key: Bytes, value: Bytes)
    requires p.parseSyncKey(value).Some?
    ensures IsSignal(SyncKeys) && KeyOk(p, SyncKeys, key) && ValueOk(p, SyncKeys, value) && MaxRecords(SyncKeys) == 256
  {
  }

  lemma PutSpaces(p: Platform, img: Image, key: Bytes, value: Bytes)
    requires |key| <= MAX_KEY_LEN
    ensures
      var next := Put(p, img, SyncKeys, key, value);
      && EncodeRecord(key, value).Ok?
      && next.Get(SyncKeys) == img.Get(SyncKeys)[KeyName(p.hash, key) := EncodeRecord(key, value).value]
      && next.control == img.control && next.linked == img.linked
  {
    hide KeyName;
  }

  lemma InUseIsFit(p: Platform, img: Image)
    requires InUse(p, img)
    ensures Fit(p, img)
  {
  }

  lemma StillInUse(p: Platform, img: Image, next: Image)
    requires InUse(p, img) && Fit(p, next) && next.control == img.control && next.linked == img.linked
    ensures InUse(p, next)
  {
    hide Fit, LoadedDevice;
  }

  lemma FreeSlot(p: Platform, img: Image, key: Bytes, valueLen: nat)
    requires |key| <= MAX_KEY_LEN && valueLen <= MAX_RECORD_LEN
    requires KeyName(p.hash, key) !in img.Get(SyncKeys) && |img.Get(SyncKeys)| < 256
    ensures SlotVerdict(p, img, SyncKeys, key, valueLen, 256).Ok?
  {
  }
}
