/** How the RAM mirrors must relate to the flash records, and what keeps them so. */
module Mirrors {
  import opened Prelude
  import opened RecordNames
  import opened Records
  import opened Images
  import opened NvsPartition
  import opened FlashRecords
  import opened Lru
  import opened LruRecency

  /** How many identities and sync keys are mirrored on a board without PSRAM. */
  const MIRROR_CAP: nat := 8

  /** An address-keyed mirror: a part of what is stored, all of it with PSRAM, a bounded part without. */
  ghost predicate CappedMirror(psram: bool, mirror: map<Bytes, Bytes>, order: seq<Bytes>, stored: map<Bytes, Bytes>,
                               cap: nat) {
    && Tracks(order, mirror)
    && SubMap(mirror, stored)
    && if psram then mirror == stored else |mirror| <= cap
  }

  /** A mirror keyed by a number that flash keys by the number's bytes: the two are equal. */
  ghost predicate NumberMirror(mirror: map<u32, Bytes>, stored: map<Bytes, Bytes>) {
    && (forall id: u32 :: Lookup(mirror, id) == Lookup(stored, LeBytes(id)))
    && (forall key :: key in stored ==> |key| == 4)
  }

  /** Each mirrored key is what its flash record parses to. */
  ghost predicate SyncEntries(p: Platform, mirror: map<Bytes, SyncKey>, stored: map<Bytes, Bytes>) {
    forall id :: id in mirror ==> id in stored && p.parseSyncKey(stored[id]) == Some(mirror[id])
  }

  ghost predicate SyncMirror(p: Platform, mirror: map<Bytes, SyncKey>, order: seq<Bytes>, latest: Option<Bytes>,
                             stored: map<Bytes, Bytes>) {
    && Tracks(order, mirror)
    && SyncEntries(p, mirror, stored)
    && (latest.Some? ==> latest.value in mirror)
    && if p.hasPsram then mirror.Keys == stored.Keys else |mirror| <= MIRROR_CAP + 1
  }

  lemma MirrorAfterUse(psram: bool, mirror: map<Bytes, Bytes>, order: seq<Bytes>, before: map<Bytes, Bytes>,
                       key: Bytes, value: Bytes, stored: map<Bytes, Bytes>, cap: nat)
    requires CappedMirror(psram, mirror, order, before, cap) && stored == before[key := value]
    ensures Tracks(Touch(order, key), mirror[key := value])
    ensures psram ==> CappedMirror(psram, mirror[key := value], Touch(order, key), stored, cap)
    ensures
      var touched, grown := Touch(order, key), mirror[key := value];
      !psram ==> CappedMirror(psram, Kept(grown, touched, Excess(touched, cap), None), Trimmed(touched, cap, None),
                              stored, cap)
  {
    TouchTracks(order, mirror, key, value);
    assert SubMap(mirror[key := value], stored);
    hide Touch, Trimmed, Kept, Excess, Tracks;
    if !psram {
      TrimKeeps(Touch(order, key), mirror[key := value], cap, None);
    }
  }

  lemma MirrorAfterDelete(psram: bool, mirror: map<Bytes, Bytes>, order: seq<Bytes>, before: map<Bytes, Bytes>,
                          key: Bytes, cap: nat)
    requires CappedMirror(psram, mirror, order, before, cap)
    ensures CappedMirror(psram, mirror - {key}, Without(order, key), before - {key}, cap)
  {
    RemoveTracks(order, mirror, key);
    CardinalitySubset((mirror - {key}).Keys, mirror.Keys);
  }

  lemma MirrorAfterHit(psram: bool, mirror: map<Bytes, Bytes>, order: seq<Bytes>, stored: map<Bytes, Bytes>, key: Bytes,
                       cap: nat)
    requires CappedMirror(psram, mirror, order, stored, cap) && key in mirror
    ensures CappedMirror(psram, mirror, Touch(order, key), stored, cap)
  {
    TouchTracks(order, mirror, key, mirror[key]);
    assert mirror[key := mirror[key]] == mirror;
  }

  /** The RAM state behind the store lock. */
  datatype StoreInner = StoreInner(
    device: Option<Device>,
    identities: map<Bytes, Bytes>,
    identityOrder: seq<Bytes>,
    sessions: map<Bytes, Bytes>,
    sessionOrder: seq<Bytes>,
    prekeys: map<u32, Bytes>,
    signedPrekeys: map<u32, Bytes>,
    senderKeys: map<Bytes, Bytes>,
    syncKeys: map<Bytes, SyncKey>,
    syncKeyOrder: seq<Bytes>,
    latestSyncKeyId: Option<Bytes>)

  const NOTHING: StoreInner := StoreInner(None, map[], [], map[], [], map[], map[], map[], map[], [], None)

  /** How the RAM state must relate to each namespace; the control namespace has no mirror. */
  ghost predicate MirrorOk(p: Platform, img: Image, inner: StoreInner, ns: Ns) {
    match ns
    case Control => true
    case Linked => LoadedDevice(p, img.Get(Linked)) == Ok(inner.device)
    case Identities => CappedMirror(p.hasPsram, inner.identities, inner.identityOrder, Stored(p, img, Identities),
                                    MIRROR_CAP)
    case Sessions => CappedMirror(p.hasPsram, inner.sessions, inner.sessionOrder, Stored(p, img, Sessions), 0)
    case Prekeys => NumberMirror(inner.prekeys, Stored(p, img, Prekeys))
    case SignedPrekeys => NumberMirror(inner.signedPrekeys, Stored(p, img, SignedPrekeys))
    case SenderKeys => inner.senderKeys == Stored(p, img, SenderKeys)
    case SyncKeys => SyncMirror(p, inner.syncKeys, inner.syncKeyOrder, inner.latestSyncKeyId, Stored(p, img, SyncKeys))
  }

  ghost predicate MirrorsOk(p: Platform, img: Image, inner: StoreInner) {
    forall ns :: MirrorOk(p, img, inner, ns)
  }

  /** The part of the RAM state that mirrors one namespace. */
  datatype Mirror =
    | NoMirror
    | OfDevice(device: Option<Device>)
    | Capped(entries: map<Bytes, Bytes>, order: seq<Bytes>)
    | ByNumber(numbered: map<u32, Bytes>)
    | Whole(all: map<Bytes, Bytes>)
    | OfSyncKeys(keys: map<Bytes, SyncKey>, keyOrder: seq<Bytes>, latest: Option<Bytes>)

  ghost function MirrorOf(inner: StoreInner, ns: Ns): Mirror {
    match ns
    case Control => NoMirror
    case Linked => OfDevice(inner.device)
    case Identities => Capped(inner.identities, inner.identityOrder)
    case Sessions => Capped(inner.sessions, inner.sessionOrder)
    case Prekeys => ByNumber(inner.prekeys)
    case SignedPrekeys => ByNumber(inner.signedPrekeys)
    case SenderKeys => Whole(inner.senderKeys)
    case SyncKeys => OfSyncKeys(inner.syncKeys, inner.syncKeyOrder, inner.latestSyncKeyId)
  }

  /** Only the part of the RAM state that mirrors `ns` differs. */
  ghost predicate SameInnerElsewhere(a: StoreInner, b: StoreInner, ns: Ns) {
    forall other :: other != ns ==> MirrorOf(b, other) == MirrorOf(a, other)
  }

  /** Nothing but `ns` differs, and the latest-key marker when `ns` is that of the sync keys. */
  ghost predicate SameFlashElsewhere(a: Image, b: Image, ns: Ns) {
    forall other :: other != ns && (ns == SyncKeys ==> other != Control) ==> b.Get(other) == a.Get(other)
  }

  ghost predicate SameButControl(a: Image, b: Image) {
    forall ns :: ns != Control ==> b.Get(ns) == a.Get(ns)
  }

  lemma MirrorCarriesOver(p: Platform, a: Image, b: Image, x: StoreInner, y: StoreInner, ns: Ns)
    requires MirrorOk(p, a, x, ns)
    requires ns != Control ==> b.Get(ns) == a.Get(ns) && MirrorOf(y, ns) == MirrorOf(x, ns)
    ensures MirrorOk(p, b, y, ns)
  {
    hide Image.Get, Contents, LoadedDevice, CappedMirror, NumberMirror, SyncMirror;
  }

  lemma OtherMirrorsHold(p: Platform, a: Image, b: Image, x: StoreInner, y: StoreInner, ns: Ns)
    requires forall other :: other != ns ==> MirrorOk(p, a, x, other)
    requires SameFlashElsewhere(a, b, ns) && SameInnerElsewhere(x, y, ns)
    requires MirrorOk(p, b, y, ns)
    ensures MirrorsOk(p, b, y)
  {
    hide Image.Get, MirrorOk, MirrorOf;
    forall other | other != ns ensures MirrorOk(p, b, y, other) {
      MirrorCarriesOver(p, a, b, x, y, other);
    }
  }

  lemma NumberMirrorPut(mirror: map<u32, Bytes>, stored: map<Bytes, Bytes>, id: u32, value: Bytes)
    requires NumberMirror(mirror, stored)
    ensures NumberMirror(mirror[id := value], stored[LeBytes(id) := value])
  {
    LeBytesRoundTrip(id);
    forall other: u32
      ensures Lookup(mirror[id := value], other) == Lookup(stored[LeBytes(id) := value], LeBytes(other))
    {
      LeBytesRoundTrip(other);
      assert Lookup(mirror, other) == Lookup(stored, LeBytes(other));
    }
  }

  lemma NumberMirrorDelete(mirror: map<u32, Bytes>, stored: map<Bytes, Bytes>, id: u32)
    requires NumberMirror(mirror, stored)
    ensures NumberMirror(mirror - {id}, stored - {LeBytes(id)})
  {
    LeBytesRoundTrip(id);
    forall other: u32 ensures Lookup(mirror - {id}, other) == Lookup(stored - {LeBytes(id)}, LeBytes(other)) {
      LeBytesRoundTrip(other);
      assert Lookup(mirror, other) == Lookup(stored, LeBytes(other));
    }
  }

  lemma SyncEntriesGrow(p: Platform, mirror: map<Bytes, SyncKey>, stored: map<Bytes, Bytes>, id: Bytes, key: SyncKey,
                        payload: Bytes)
    requires SyncEntries(p, mirror, stored) && p.parseSyncKey(payload) == Some(key)
    ensures SyncEntries(p, mirror[id := key], stored[id := payload])
    ensures mirror.Keys == stored.Keys ==> mirror[id := key].Keys == stored[id := payload].Keys
  {
  }

  lemma SyncEntriesShrink(p: Platform, part: map<Bytes, SyncKey>, mirror: map<Bytes, SyncKey>,
                          stored: map<Bytes, Bytes>)
    requires SyncEntries(p, mirror, stored) && SubMap(part, mirror)
    ensures SyncEntries(p, part, stored)
  {
  }

  /** Trimming a sync-key mirror spares the latest key, and is down to the cap when that is the one just used. */
  lemma SyncMirrorTrimmed(p: Platform, mirror: map<Bytes, SyncKey>, order: seq<Bytes>, latest: Option<Bytes>,
                          stored: map<Bytes, Bytes>)
    requires !p.hasPsram && Tracks(order, mirror) && SyncEntries(p, mirror, stored)
    requires latest.Some? ==> latest.value in mirror
    ensures SyncMirror(p, Kept(mirror, order, Excess(order, MIRROR_CAP), latest), Trimmed(order, MIRROR_CAP, latest),
                       latest, stored)
    ensures order != [] && latest == Some(order[|order| - 1]) ==> |Trimmed(order, MIRROR_CAP, latest)| <= MIRROR_CAP
  {
    TrimKeeps(order, mirror, MIRROR_CAP, latest);
    SyncEntriesShrink(p, Kept(mirror, order, Excess(order, MIRROR_CAP), latest), mirror, stored);
    if order != [] && latest == Some(order[|order| - 1]) {
      TrimWithProtectedLast(order, MIRROR_CAP, order[|order| - 1]);
    }
  }

  /**
   * Recording a sync key that flash holds keeps the mirror sound; recording the latest also keeps it within the cap.
   */
  lemma SyncMirrorAfterUse(p: Platform, mirror: map<Bytes, SyncKey>, order: seq<Bytes>, latest: Option<Bytes>,
                           before: map<Bytes, Bytes>,
                           id: Bytes, key: SyncKey, payload: Bytes, newLatest: Option<Bytes>)
    requires SyncMirror(p, mirror, order, latest, before)
    requires p.parseSyncKey(payload) == Some(key) && (newLatest == latest || newLatest == Some(id))
    ensures
      var grown, touched, stored := mirror[id := key], Touch(order, id), before[id := payload];
      && Tracks(touched, grown)
      && (p.hasPsram ==> SyncMirror(p, grown, touched, newLatest, stored))
      && (!p.hasPsram ==>
            var rest := Trimmed(touched, MIRROR_CAP, newLatest);
            && SyncMirror(p, Kept(grown, touched, Excess(touched, MIRROR_CAP), newLatest), rest, newLatest, stored)
            && (newLatest == Some(id) ==> |rest| <= MIRROR_CAP))
  {
    TouchTracks(order, mirror, id, key);
    SyncEntriesGrow(p, mirror, before, id, key, payload);
    assert Touch(order, id)[|Touch(order, id)| - 1] == id;
    hide Tracks, SyncEntries, Touch, Trimmed, Kept;
    if !p.hasPsram {
      SyncMirrorTrimmed(p, mirror[id := key], Touch(order, id), newLatest, before[id := payload]);
    }
  }

  /** All entries of a batch up to the `n`-th, put in order. */
  ghost function PutFirst(stored: map<Bytes, Bytes>, batch: seq<Entry>, n: nat): map<Bytes, Bytes>
    requires n <= |batch|
  {
    if n == 0 then stored else PutFirst(stored, batch, n - 1)[batch[n - 1].key := batch[n - 1].value]
  }

  /** Some address of `user`: the user id followed by `@` or `:`. */
  predicate AddressOf(address: Bytes, user: Bytes) {
    |address| > |user| && address[..|user|] == user && (address[|user|] == 64 || address[|user|] == 58)
  }

  predicate AnyAddressOf(addresses: set<Bytes>, user: Bytes) {
    exists a :: a in addresses && AddressOf(a, user)
  }

  /** An id as it stands before the `@` of an address, or before its `:`. */
  predicate UserId(user: Bytes) {
    64 !in user && 58 !in user
  }

  /**
   * `owner@server` and `owner:device@server` are addresses of `owner`, and of nobody else; in particular not of a user
   * whose id only starts the same.
   */
  lemma AddressOfOwner(owner: Bytes, device: Bytes, server: Bytes, user: Bytes)
    requires UserId(owner) && UserId(user)
    ensures AddressOf(owner + [64] + server, user) <==> user == owner
    ensures AddressOf(owner + [58] + device + [64] + server, user) <==> user == owner
  {
    AddressOfPrefix(owner, [64] + server, user);
    AddressOfPrefix(owner, [58] + device + [64] + server, user);
    assert owner + [64] + server == owner + ([64] + server);
    assert owner + [58] + device + [64] + server == owner + ([58] + device + [64] + server);
  }

  lemma AddressOfPrefix(owner: Bytes, tail: Bytes, user: Bytes)
    requires UserId(owner) && UserId(user) && tail != [] && (tail[0] == 64 || tail[0] == 58)
    ensures AddressOf(owner + tail, user) <==> user == owner
  {
    var address := owner + tail;
    assert address[|owner|] == tail[0] && address[..|owner|] == owner;
  }

  lemma SameFlash(img: Image, ns: Ns)
    ensures SameFlashElsewhere(img, img, ns)
  {
  }

  lemma SameFlashTransitive(a: Image, b: Image, c: Image, ns: Ns)
    requires SameFlashElsewhere(a, b, ns) && SameFlashElsewhere(b, c, ns)
    ensures SameFlashElsewhere(a, c, ns)
  {
  }

  lemma NothingPut(stored: map<Bytes, Bytes>, batch: seq<Entry>)
    ensures PutFirst(stored, batch, 0) == stored
  {
  }

  lemma PutOneMore(stored: map<Bytes, Bytes>, batch: seq<Entry>, n: nat)
    requires n < |batch|
    ensures PutFirst(stored, batch, n + 1) == PutFirst(stored, batch, n)[batch[n].key := batch[n].value]
  {
  }

  function EnsureInsertCapacity(present: bool, len: nat, max: nat): Result<()> {
    if !present && len >= max then Err(Invalid) else Ok(())
  }

  /** The mirror's own capacity check refuses nothing that flash would accept. */
  lemma MirrorCheckAgrees(p: Platform, img: Image, ns: Ns, key: Bytes, valueLen: nat, mirrored: set<Bytes>)
    requires Fit(p, img) && IsSignal(ns) && mirrored <= Stored(p, img, ns).Keys
    requires key !in mirrored && |mirrored| >= MaxRecords(ns)
    ensures !Storable(p, img, ns, key, valueLen)
  {
    assert Replayable(p, ns, img.Get(ns));
    CountsAgree(p.hash, img.Get(ns), MaxValue(ns));
    FullSubset(mirrored, Stored(p, img, ns).Keys, MaxRecords(ns));
    hide NameOf, DecodeRecord, Image.Get, Replayable;
  }

  lemma FullSubset<T>(part: set<T>, whole: set<T>, max: nat)
    requires part <= whole && |whole| <= max <= |part|
    ensures part == whole
  {
    assert whole == part + (whole - part);
  }

  ghost function NumberKeys(ids: set<u32>): set<Bytes> {
    set id | id in ids :: LeBytes(id)
  }

  lemma {:induction false} NumberKeysCount(ids: set<u32>)
    ensures |NumberKeys(ids)| == |ids|
  {
    if ids == {} {
      assert NumberKeys(ids) == {};
    } else {
      var id :| id in ids;
      NumberKeysCount(ids - {id});
      forall other | other in ids - {id} ensures LeBytes(other) != LeBytes(id) {
        LeBytesRoundTrip(other);
        LeBytesRoundTrip(id);
      }
      assert NumberKeys(ids) == NumberKeys(ids - {id}) + {LeBytes(id)};
    }
  }

  lemma NumberCheckAgrees(p: Platform, img: Image, ns: Ns, id: u32, valueLen: nat, mirror: map<u32, Bytes>)
    requires Fit(p, img) && IsSignal(ns) && NumberMirror(mirror, Stored(p, img, ns))
    requires id !in mirror && |mirror| >= MaxRecords(ns)
    ensures !Storable(p, img, ns, LeBytes(id), valueLen)
  {
    NumberKeysCount(mirror.Keys);
    forall other | other in mirror ensures LeBytes(other) in Stored(p, img, ns) && LeBytes(other) != LeBytes(id) {
      assert Lookup(mirror, other) == Lookup(Stored(p, img, ns), LeBytes(other));
      LeBytesRoundTrip(other);
      LeBytesRoundTrip(id);
    }
    hide Storable, Fit, NumberMirror, Image.Get, LeBytes, Contents;
    MirrorCheckAgrees(p, img, ns, LeBytes(id), valueLen, NumberKeys(mirror.Keys));
  }

  /** A capped mirror after one more use of `key`, its value being `value`. */
  ghost function UsedIn(p: Platform, mirror: map<Bytes, Bytes>, order: seq<Bytes>, key: Bytes, value: Bytes,
                        cap: nat): Mirror {
    var grown, touched := mirror[key := value], Touch(order, key);
    if p.hasPsram then Capped(grown, touched)
    else Capped(Kept(grown, touched, Excess(touched, cap), None), Trimmed(touched, cap, None))
  }

  ghost function WithIdentities(inner: StoreInner, m: Mirror): StoreInner
    requires m.Capped?
  {
    inner.(identities := m.entries, identityOrder := m.order)
  }

  ghost function WithSessions(inner: StoreInner, m: Mirror): StoreInner
    requires m.Capped?
  {
    inner.(sessions := m.entries, sessionOrder := m.order)
  }

  ghost function UsedIdentity(p: Platform, inner: StoreInner, address: Bytes, key: Bytes): StoreInner {
    WithIdentities(inner, UsedIn(p, inner.identities, inner.identityOrder, address, key, MIRROR_CAP))
  }

  ghost function UsedSession(p: Platform, inner: StoreInner, address: Bytes, session: Bytes): StoreInner {
    WithSessions(inner, UsedIn(p, inner.sessions, inner.sessionOrder, address, session, 0))
  }

  /** The RAM state after the first `n` entries of a batch. */
  ghost function UsedIdentities(p: Platform, inner: StoreInner, batch: seq<Entry>, n: nat): StoreInner
    requires n <= |batch|
  {
    if n == 0 then inner
    else UsedIdentity(p, UsedIdentities(p, inner, batch, n - 1), batch[n - 1].key, batch[n - 1].value)
  }

  ghost function UsedSessions(p: Platform, inner: StoreInner, batch: seq<Entry>, n: nat): StoreInner
    requires n <= |batch|
  {
    if n == 0 then inner
    else UsedSession(p, UsedSessions(p, inner, batch, n - 1), batch[n - 1].key, batch[n - 1].value)
  }

  lemma OneMoreUsed(p: Platform, inner: StoreInner, batch: seq<Entry>, n: nat)
    requires n < |batch|
    ensures UsedIdentities(p, inner, batch, n + 1)
            == UsedIdentity(p, UsedIdentities(p, inner, batch, n), batch[n].key, batch[n].value)
    ensures UsedSessions(p, inner, batch, n + 1)
            == UsedSession(p, UsedSessions(p, inner, batch, n), batch[n].key, batch[n].value)
    ensures UsedIdentities(p, inner, batch, 0) == inner == UsedSessions(p, inner, batch, 0)
  {
    hide UsedIdentity, UsedSession;
  }

  /** What a batch has made of flash and RAM when `n` of its entries are written. */
  ghost predicate BatchPut(p: Platform, ns: Ns, start: Image, now: Image, before: StoreInner, after: StoreInner,
                           batch: seq<Entry>, n: nat) {
    && n <= |batch| && (n == 0 ==> now == start)
    && Stored(p, now, ns) == PutFirst(Stored(p, start, ns), batch, n)
    && SameFlashElsewhere(start, now, ns)
    && after == if ns == Identities then UsedIdentities(p, before, batch, n) else UsedSessions(p, before, batch, n)
  }

  lemma NothingPutYet(p: Platform, ns: Ns, img: Image, inner: StoreInner, batch: seq<Entry>)
    ensures BatchPut(p, ns, img, img, inner, inner, batch, 0)
  {
  }

  lemma OneMorePut(p: Platform, ns: Ns, start: Image, before: StoreInner, batch: seq<Entry>, n: nat,
                   img: Image, inner: StoreInner, next: Image, mirrored: StoreInner)
    requires BatchPut(p, ns, start, img, before, inner, batch, n) && n < |batch|
    requires Stored(p, next, ns) == Stored(p, img, ns)[batch[n].key := batch[n].value]
    requires SameFlashElsewhere(img, next, ns)
    requires mirrored == if ns == Identities then UsedIdentity(p, inner, batch[n].key, batch[n].value)
                         else UsedSession(p, inner, batch[n].key, batch[n].value)
    ensures BatchPut(p, ns, start, next, before, mirrored, batch, n + 1)
  {
    OneMoreUsed(p, before, batch, n);
    PutOneMore(Stored(p, start, ns), batch, n);
    SameFlashTransitive(start, img, next, ns);
    hide Stored, PutFirst, UsedIdentity, UsedSession, UsedIdentities, UsedSessions, SameFlashElsewhere;
  }

  ghost function UsedSyncKey(p: Platform, inner: StoreInner, id: Bytes, key: SyncKey,
                             latest: Option<Bytes>): StoreInner {
    var grown, touched := inner.syncKeys[id := key], Touch(inner.syncKeyOrder, id);
    if p.hasPsram then inner.(syncKeys := grown, syncKeyOrder := touched, latestSyncKeyId := latest)
    else inner.(syncKeys := Kept(grown, touched, Excess(touched, MIRROR_CAP), latest),
                syncKeyOrder := Trimmed(touched, MIRROR_CAP, latest), latestSyncKeyId := latest)
  }

  /** The protected key in front, if it is too old to be among the youngest. */
  ghost function Spared(order: seq<Bytes>, cap: nat, protected: Option<Bytes>): seq<Bytes> {
    if protected.Some? && protected.value in order && protected.value !in Youngest(order, cap) then [protected.value]
    else []
  }

  lemma TrimmedIs(order: seq<Bytes>, cap: nat, protected: Option<Bytes>)
    requires Distinct(order)
    ensures Trimmed(order, cap, protected) == Spared(order, cap, protected) + Youngest(order, cap)
  {
    var n := Excess(order, cap);
    EvictShape(order, n, protected);
    assert order == order[..n] + order[n..] && Youngest(order, cap) == order[n..];
    if protected.Some? && protected.value in order[..n] {
      var i :| 0 <= i < n && order[i] == protected.value;
      assert forall j | n <= j < |order| :: order[j] != order[i];
    }
  }

  lemma TrimLeaves<V>(order: seq<Bytes>, m: map<Bytes, V>, cap: nat, protected: Option<Bytes>)
    requires Tracks(order, m)
    ensures Tracks(Trimmed(order, cap, protected), Kept(m, order, Excess(order, cap), protected))
    ensures SubMap(Kept(m, order, Excess(order, cap), protected), m)
    ensures Trimmed(order, cap, protected) == Spared(order, cap, protected) + Youngest(order, cap)
    ensures Trimmed(order, cap, None) == Youngest(order, cap)
  {
    TrimKeeps(order, m, cap, protected);
    TrimmedIs(order, cap, protected);
    TrimmedIs(order, cap, None);
  }

  /** With PSRAM a use mirrors everything, the key used last being the youngest; without, the youngest up to the cap. */
  lemma UseKeepsYoungest(p: Platform, mirror: map<Bytes, Bytes>, order: seq<Bytes>, key: Bytes, value: Bytes, cap: nat)
    requires Tracks(order, mirror)
    ensures
      var used, touched := UsedIn(p, mirror, order, key, value, cap), Touch(order, key);
      && used.Capped? && Tracks(used.order, used.entries) && SubMap(used.entries, mirror[key := value])
      && used.order == if p.hasPsram then touched else Youngest(touched, cap)
  {
    TouchTracks(order, mirror, key, value);
    TrimLeaves(Touch(order, key), mirror[key := value], cap, None);
    hide Touch, Kept, Trimmed, Excess, Youngest, Spared, Tracks;
  }

  /** The same for sync keys, where the latest is spared besides. */
  lemma UseKeepsYoungestAndLatest(p: Platform, x: StoreInner, id: Bytes, key: SyncKey, latest: Option<Bytes>)
    requires Tracks(x.syncKeyOrder, x.syncKeys)
    ensures
      var y, touched := UsedSyncKey(p, x, id, key, latest), Touch(x.syncKeyOrder, id);
      && Tracks(y.syncKeyOrder, y.syncKeys) && SubMap(y.syncKeys, x.syncKeys[id := key])
      && y.syncKeyOrder == if p.hasPsram then touched else Spared(touched, 8, latest) + Youngest(touched, 8)
  {
    TouchTracks(x.syncKeyOrder, x.syncKeys, id, key);
    TrimLeaves(Touch(x.syncKeyOrder, id), x.syncKeys[id := key], MIRROR_CAP, latest);
    hide Touch, Kept, Trimmed, Excess, Youngest, Spared, Tracks;
  }

  lemma OnlyIdentities(x: StoreInner, m: Mirror)
    requires m.Capped?
    ensures SameInnerElsewhere(x, WithIdentities(x, m), Identities)
  {
  }

  lemma OnlySessions(x: StoreInner, m: Mirror)
    requires m.Capped?
    ensures SameInnerElsewhere(x, WithSessions(x, m), Sessions)
  {
  }

  lemma IdentityUsed(p: Platform, a: Image, b: Image, x: StoreInner, address: Bytes, key: Bytes)
    requires MirrorsOk(p, a, x) && SameFlashElsewhere(a, b, Identities)
    requires Stored(p, b, Identities) == Stored(p, a, Identities)[address := key]
    ensures MirrorsOk(p, b, UsedIdentity(p, x, address, key))
    ensures Tracks(Touch(x.identityOrder, address), x.identities[address := key])
  {
    assert MirrorOk(p, a, x, Identities);
    MirrorAfterUse(p.hasPsram, x.identities, x.identityOrder, Stored(p, a, Identities), address, key,
                   Stored(p, b, Identities), MIRROR_CAP);
    var m := UsedIn(p, x.identities, x.identityOrder, address, key, MIRROR_CAP);
    hide Stored, Touch, Kept, Trimmed, CappedMirror;
    OnlyIdentities(x, m);
    hide SameInnerElsewhere, SameFlashElsewhere;
    OtherMirrorsHold(p, a, b, x, WithIdentities(x, m), Identities);
  }

  lemma IdentityHit(p: Platform, img: Image, x: StoreInner, address: Bytes)
    requires MirrorsOk(p, img, x) && address in x.identities
    ensures MirrorsOk(p, img, x.(identityOrder := Touch(x.identityOrder, address)))
    ensures Lookup(Stored(p, img, Identities), address) == Some(x.identities[address])
    ensures !p.hasPsram ==>
              Touch(x.identityOrder, address) == Trimmed(Touch(x.identityOrder, address), MIRROR_CAP, None)
  {
    assert MirrorOk(p, img, x, Identities);
    MirrorAfterHit(p.hasPsram, x.identities, x.identityOrder, Stored(p, img, Identities), address, MIRROR_CAP);
    TracksCount(Touch(x.identityOrder, address), x.identities);
    hide Stored, Touch;
    var m := Capped(x.identities, Touch(x.identityOrder, address));
    OnlyIdentities(x, m);
    hide SameInnerElsewhere;
    OtherMirrorsHold(p, img, img, x, WithIdentities(x, m), Identities);
  }

  lemma IdentityDeleted(p: Platform, a: Image, b: Image, x: StoreInner, address: Bytes)
    requires MirrorsOk(p, a, x) && SameFlashElsewhere(a, b, Identities)
    requires Stored(p, b, Identities) == Stored(p, a, Identities) - {address}
    ensures MirrorsOk(p, b,
                      x.(identities := x.identities - {address}, identityOrder := Without(x.identityOrder, address)))
  {
    assert MirrorOk(p, a, x, Identities);
    MirrorAfterDelete(p.hasPsram, x.identities, x.identityOrder, Stored(p, a, Identities), address, MIRROR_CAP);
    hide Stored, Without, CappedMirror;
    var m := Capped(x.identities - {address}, Without(x.identityOrder, address));
    OnlyIdentities(x, m);
    hide SameInnerElsewhere, SameFlashElsewhere;
    OtherMirrorsHold(p, a, b, x, WithIdentities(x, m), Identities);
  }

  lemma IdentityIs32Bytes(p: Platform, img: Image, address: Bytes)
    requires Fit(p, img) && address in Stored(p, img, Identities)
    ensures |Stored(p, img, Identities)[address]| == 32
  {
    assert Replayable(p, Identities, img.Get(Identities));
  }

  lemma IdentityMirrorIsPart(p: Platform, img: Image, x: StoreInner)
    requires MirrorsOk(p, img, x)
    ensures x.identities.Keys <= Stored(p, img, Identities).Keys && |x.identities| == |x.identities.Keys|
    ensures x.sessions.Keys <= Stored(p, img, Sessions).Keys && |x.sessions| == |x.sessions.Keys|
  {
    assert MirrorOk(p, img, x, Identities) && MirrorOk(p, img, x, Sessions);
  }

  lemma SessionUsed(p: Platform, a: Image, b: Image, x: StoreInner, address: Bytes, session: Bytes)
    requires MirrorsOk(p, a, x) && SameFlashElsewhere(a, b, Sessions)
    requires Stored(p, b, Sessions) == Stored(p, a, Sessions)[address := session]
    ensures MirrorsOk(p, b, UsedSession(p, x, address, session))
    ensures Tracks(Touch(x.sessionOrder, address), x.sessions[address := session])
  {
    assert MirrorOk(p, a, x, Sessions);
    MirrorAfterUse(p.hasPsram, x.sessions, x.sessionOrder, Stored(p, a, Sessions), address, session,
                   Stored(p, b, Sessions), 0);
    var m := UsedIn(p, x.sessions, x.sessionOrder, address, session, 0);
    hide Stored, Touch, Kept, Trimmed, CappedMirror;
    OnlySessions(x, m);
    hide SameInnerElsewhere, SameFlashElsewhere;
    OtherMirrorsHold(p, a, b, x, WithSessions(x, m), Sessions);
  }

  lemma SessionHit(p: Platform, img: Image, x: StoreInner, address: Bytes)
    requires MirrorsOk(p, img, x) && address in x.sessions
    ensures MirrorsOk(p, img, x.(sessionOrder := Touch(x.sessionOrder, address)))
    ensures Lookup(Stored(p, img, Sessions), address) == Some(x.sessions[address])
  {
    assert MirrorOk(p, img, x, Sessions);
    MirrorAfterHit(p.hasPsram, x.sessions, x.sessionOrder, Stored(p, img, Sessions), address, 0);
    hide Stored, Touch;
    var m := Capped(x.sessions, Touch(x.sessionOrder, address));
    OnlySessions(x, m);
    hide SameInnerElsewhere;
    OtherMirrorsHold(p, img, img, x, WithSessions(x, m), Sessions);
  }

  lemma SessionDeleted(p: Platform, a: Image, b: Image, x: StoreInner, address: Bytes)
    requires MirrorsOk(p, a, x) && SameFlashElsewhere(a, b, Sessions)
    requires Stored(p, b, Sessions) == Stored(p, a, Sessions) - {address}
    ensures MirrorsOk(p, b, x.(sessions := x.sessions - {address}, sessionOrder := Without(x.sessionOrder, address)))
  {
    assert MirrorOk(p, a, x, Sessions);
    MirrorAfterDelete(p.hasPsram, x.sessions, x.sessionOrder, Stored(p, a, Sessions), address, 0);
    hide Stored, Without, CappedMirror;
    var m := Capped(x.sessions - {address}, Without(x.sessionOrder, address));
    OnlySessions(x, m);
    hide SameInnerElsewhere, SameFlashElsewhere;
    OtherMirrorsHold(p, a, b, x, WithSessions(x, m), Sessions);
  }

  /** Clearing needs nothing of the session mirror beforehand. */
  lemma SessionsCleared(p: Platform, a: Image, b: Image, x: StoreInner)
    requires forall ns :: ns != Sessions ==> MirrorOk(p, a, x, ns)
    requires b == a.Set(Sessions, map[])
    ensures MirrorsOk(p, b, x.(sessions := map[], sessionOrder := []))
  {
    assert b.Get(Sessions) == map[];
    assert Stored(p, b, Sessions) == map[];
    var m := Capped(map[], []);
    assert SameFlashElsewhere(a, b, Sessions);
    hide Stored, Image.Get, Image.Set, SameFlashElsewhere;
    OnlySessions(x, m);
    hide SameInnerElsewhere;
    OtherMirrorsHold(p, a, b, x, WithSessions(x, m), Sessions);
  }

  /** After a factory reset, and on a board never linked, nothing is mirrored because nothing is stored. */
  lemma NothingMirrorsBlank(p: Platform, img: Image)
    requires LoadedDevice(p, img.Get(Linked)) == Ok(None)
    requires forall ns :: IsSignal(ns) ==> img.Get(ns) == map[]
    ensures MirrorsOk(p, img, NOTHING)
  {
    forall ns ensures MirrorOk(p, img, NOTHING, ns) {
      if IsSignal(ns) {
        assert Stored(p, img, ns) == map[] by {
          assert img.Get(ns) == map[];
        }
      }
    }
  }

  ghost function NumbersOf(inner: StoreInner, ns: Ns): map<u32, Bytes> {
    if ns == Prekeys then inner.prekeys else inner.signedPrekeys
  }

  ghost function WithNumbers(inner: StoreInner, ns: Ns, m: map<u32, Bytes>): StoreInner {
    if ns == Prekeys then inner.(prekeys := m) else inner.(signedPrekeys := m)
  }

  lemma OnlyNumbers(x: StoreInner, ns: Ns, m: map<u32, Bytes>)
    requires ns == Prekeys || ns == SignedPrekeys
    ensures SameInnerElsewhere(x, WithNumbers(x, ns, m), ns)
  {
  }

  lemma NumberStored(p: Platform, a: Image, b: Image, x: StoreInner, ns: Ns, id: u32, value: Bytes)
    requires ns == Prekeys || ns == SignedPrekeys
    requires MirrorsOk(p, a, x) && SameFlashElsewhere(a, b, ns)
    requires Stored(p, b, ns) == Stored(p, a, ns)[LeBytes(id) := value]
    ensures MirrorsOk(p, b, WithNumbers(x, ns, NumbersOf(x, ns)[id := value]))
  {
    assert MirrorOk(p, a, x, ns);
    NumberMirrorPut(NumbersOf(x, ns), Stored(p, a, ns), id, value);
    hide Stored, NumberMirror, LeBytes;
    OnlyNumbers(x, ns, NumbersOf(x, ns)[id := value]);
    hide SameInnerElsewhere, SameFlashElsewhere;
    OtherMirrorsHold(p, a, b, x, WithNumbers(x, ns, NumbersOf(x, ns)[id := value]), ns);
  }

  lemma NumberRemoved(p: Platform, a: Image, b: Image, x: StoreInner, ns: Ns, id: u32)
    requires ns == Prekeys || ns == SignedPrekeys
    requires MirrorsOk(p, a, x) && SameFlashElsewhere(a, b, ns)
    requires Stored(p, b, ns) == Stored(p, a, ns) - {LeBytes(id)}
    ensures MirrorsOk(p, b, WithNumbers(x, ns, NumbersOf(x, ns) - {id}))
  {
    assert MirrorOk(p, a, x, ns);
    NumberMirrorDelete(NumbersOf(x, ns), Stored(p, a, ns), id);
    hide Stored, NumberMirror, LeBytes;
    OnlyNumbers(x, ns, NumbersOf(x, ns) - {id});
    hide SameInnerElsewhere, SameFlashElsewhere;
    OtherMirrorsHold(p, a, b, x, WithNumbers(x, ns, NumbersOf(x, ns) - {id}), ns);
  }

  lemma NumberAt(p: Platform, img: Image, x: StoreInner, ns: Ns, id: u32)
    requires ns == Prekeys || ns == SignedPrekeys
    requires MirrorsOk(p, img, x)
    ensures Lookup(NumbersOf(x, ns), id) == Lookup(Stored(p, img, ns), LeBytes(id))
    ensures NumberMirror(NumbersOf(x, ns), Stored(p, img, ns))
  {
    assert MirrorOk(p, img, x, ns);
  }

  lemma OnlySenderKeys(x: StoreInner, m: map<Bytes, Bytes>)
    ensures SameInnerElsewhere(x, x.(senderKeys := m), SenderKeys)
  {
  }

  lemma SenderKeysEqualFlash(p: Platform, a: Image, b: Image, x: StoreInner, m: map<Bytes, Bytes>)
    requires MirrorsOk(p, a, x) && SameFlashElsewhere(a, b, SenderKeys) && m == Stored(p, b, SenderKeys)
    ensures MirrorsOk(p, b, x.(senderKeys := m))
  {
    OnlySenderKeys(x, m);
    hide Stored, SameInnerElsewhere, SameFlashElsewhere;
    OtherMirrorsHold(p, a, b, x, x.(senderKeys := m), SenderKeys);
  }

  lemma SenderKeysAre(p: Platform, img: Image, x: StoreInner)
    requires MirrorsOk(p, img, x)
    ensures x.senderKeys == Stored(p, img, SenderKeys)
  {
    assert MirrorOk(p, img, x, SenderKeys);
  }

  lemma OnlyDevice(x: StoreInner, device: Option<Device>)
    ensures SameInnerElsewhere(x, x.(device := device), Linked)
  {
  }

  lemma DeviceIs(p: Platform, img: Image, x: StoreInner)
    requires MirrorsOk(p, img, x)
    ensures LoadedDevice(p, img.linked) == Ok(x.device)
  {
    hide LoadedDevice;
    assert MirrorOk(p, img, x, Linked);
  }

  lemma DeviceSaved(p: Platform, a: Image, b: Image, x: StoreInner, device: Device)
    requires MirrorsOk(p, a, x) && SameFlashElsewhere(a, b, Linked)
    requires LoadedDevice(p, b.linked) == Ok(Some(device))
    ensures MirrorsOk(p, b, x.(device := Some(device)))
  {
    OnlyDevice(x, Some(device));
    hide LoadedDevice, SameInnerElsewhere, SameFlashElsewhere;
    assert b.Get(Linked) == b.linked;
    OtherMirrorsHold(p, a, b, x, x.(device := Some(device)), Linked);
  }

  ghost function WithSyncKeys(inner: StoreInner, m: Mirror): StoreInner
    requires m.OfSyncKeys?
  {
    inner.(syncKeys := m.keys, syncKeyOrder := m.keyOrder, latestSyncKeyId := m.latest)
  }

  lemma OnlySyncKeys(x: StoreInner, m: Mirror)
    requires m.OfSyncKeys?
    ensures SameInnerElsewhere(x, WithSyncKeys(x, m), SyncKeys)
  {
  }

  /** Recording a key that flash holds; when it is also the latest, the mirror is back within its cap. */
  lemma SyncKeyUsed(p: Platform, a: Image, b: Image, x: StoreInner, id: Bytes, key: SyncKey, payload: Bytes,
                    latest: Option<Bytes>)
    requires MirrorsOk(p, a, x) && SameFlashElsewhere(a, b, SyncKeys)
    requires Stored(p, b, SyncKeys) == Stored(p, a, SyncKeys)[id := payload]
    requires p.parseSyncKey(payload) == Some(key) && (latest == x.latestSyncKeyId || latest == Some(id))
    ensures MirrorsOk(p, b, UsedSyncKey(p, x, id, key, latest))
    ensures Tracks(Touch(x.syncKeyOrder, id), x.syncKeys[id := key])
    ensures latest == Some(id) && !p.hasPsram ==> |UsedSyncKey(p, x, id, key, latest).syncKeys| <= MIRROR_CAP
  {
    assert MirrorOk(p, a, x, SyncKeys);
    SyncMirrorAfterUse(p, x.syncKeys, x.syncKeyOrder, x.latestSyncKeyId, Stored(p, a, SyncKeys), id, key, payload,
                       latest);
    var y := UsedSyncKey(p, x, id, key, latest);
    if !p.hasPsram && latest == Some(id) {
      TracksCount(y.syncKeyOrder, y.syncKeys);
    }
    hide Stored, Touch, Kept, Trimmed, SyncMirror;
    OnlySyncKeys(x, OfSyncKeys(y.syncKeys, y.syncKeyOrder, latest));
    hide SameInnerElsewhere, SameFlashElsewhere;
    OtherMirrorsHold(p, a, b, x, y, SyncKeys);
  }

  lemma SyncMirrorHit(p: Platform, mirror: map<Bytes, SyncKey>, order: seq<Bytes>, latest: Option<Bytes>,
                      stored: map<Bytes, Bytes>, id: Bytes)
    requires SyncMirror(p, mirror, order, latest, stored) && id in mirror
    ensures SyncMirror(p, mirror, Touch(order, id), latest, stored)
  {
    TouchTracks(order, mirror, id, mirror[id]);
    assert mirror[id := mirror[id]] == mirror;
  }

  lemma SyncKeyHit(p: Platform, img: Image, x: StoreInner, id: Bytes)
    requires MirrorsOk(p, img, x) && id in x.syncKeys
    ensures MirrorsOk(p, img, x.(syncKeyOrder := Touch(x.syncKeyOrder, id)))
    ensures id in Stored(p, img, SyncKeys) && p.parseSyncKey(Stored(p, img, SyncKeys)[id]) == Some(x.syncKeys[id])
  {
    assert MirrorOk(p, img, x, SyncKeys);
    SyncMirrorHit(p, x.syncKeys, x.syncKeyOrder, x.latestSyncKeyId, Stored(p, img, SyncKeys), id);
    var order := Touch(x.syncKeyOrder, id);
    hide Stored, Touch, SyncMirror;
    OnlySyncKeys(x, OfSyncKeys(x.syncKeys, order, x.latestSyncKeyId));
    hide SameInnerElsewhere;
    OtherMirrorsHold(p, img, img, x, x.(syncKeyOrder := order), SyncKeys);
  }

  lemma SyncKeyParses(p: Platform, img: Image, id: Bytes)
    requires Fit(p, img) && id in Stored(p, img, SyncKeys)
    ensures p.parseSyncKey(Stored(p, img, SyncKeys)[id]).Some?
  {
    assert Replayable(p, SyncKeys, img.Get(SyncKeys));
  }

  /** What every reachable RAM state says about the sync keys, whatever has been evicted. */
  lemma SyncMirrorFacts(p: Platform, img: Image, x: StoreInner)
    requires MirrorsOk(p, img, x)
    ensures Tracks(x.syncKeyOrder, x.syncKeys) && x.syncKeys.Keys <= Stored(p, img, SyncKeys).Keys
    ensures x.latestSyncKeyId.Some? ==> x.latestSyncKeyId.value in x.syncKeys
    ensures !p.hasPsram ==> |x.syncKeys| <= MIRROR_CAP + 1
    ensures |x.syncKeys| == |x.syncKeys.Keys|
  {
    assert MirrorOk(p, img, x, SyncKeys);
  }

  lemma PsramMirrorsAll(p: Platform, img: Image, x: StoreInner)
    requires MirrorsOk(p, img, x) && p.hasPsram
    ensures x.identities == Stored(p, img, Identities) && x.sessions == Stored(p, img, Sessions)
  {
    assert MirrorOk(p, img, x, Identities) && MirrorOk(p, img, x, Sessions);
  }

  lemma FourBytes(id: u32)
    ensures |LeBytes(id)| == 4
  {
  }

  lemma MirrorsIgnoreControl(p: Platform, a: Image, b: Image, x: StoreInner)
    requires MirrorsOk(p, a, x) && SameButControl(a, b)
    ensures MirrorsOk(p, b, x)
  {
    hide Image.Get, MirrorOk, MirrorOf;
    forall ns ensures MirrorOk(p, b, x, ns) {
      MirrorCarriesOver(p, a, b, x, x, ns);
    }
  }

  lemma PartlyErasedSessions(p: Platform, a: Image, b: Image, x: StoreInner)
    requires forall ns :: ns != Sessions ==> MirrorOk(p, a, x, ns)
    requires PartlyErased(a, Sessions, b)
    ensures b.Get(Control) == a.Get(Control) && forall ns :: ns != Sessions ==> MirrorOk(p, b, x, ns)
  {
    assert forall ns | ns != Sessions :: b.Get(ns) == a.Get(ns);
    hide Image.Get, Image.Set, MirrorOk, MirrorOf, PartlyErased;
    forall ns | ns != Sessions ensures MirrorOk(p, b, x, ns) {
      MirrorCarriesOver(p, a, b, x, x, ns);
    }
  }

  /** A record that is gone from a well-formed namespace takes its logical key with it. */
  lemma ErasedKeyIsGone(p: Platform, a: Image, b: Image, name: Name) returns (key: Bytes)
    requires Fit(p, a) && PartlyErased(a, Sessions, b) && name in a.Get(Sessions) && name !in b.Get(Sessions)
    ensures key in Stored(p, a, Sessions) && key !in Stored(p, b, Sessions)
  {
    hide NameOf;
    assert Replayable(p, Sessions, a.Get(Sessions));
    assert WellFiled(p.hash, name, a.Get(Sessions)[name], MaxValue(Sessions));
    key := DecodeRecord(a.Get(Sessions)[name]).value.key;
    hide DecodeRecord;
    assert Holds(p.hash, a.Get(Sessions), key);
  }

  /**
   * After a session clear that failed part-way the mirrors still agree with flash if and only if the board has no
   * PSRAM, so that no session is mirrored, or nothing was erased after all.
   */
  lemma MirrorsAfterFailedClearIff(p: Platform, a: Image, b: Image, x: StoreInner)
    requires MirrorsOk(p, a, x) && Fit(p, a) && PartlyErased(a, Sessions, b)
    ensures MirrorsOk(p, b, x) <==> !p.hasPsram || b == a
  {
    if p.hasPsram && b != a {
      var name := ErasedName(a, b);
      var key := ErasedKeyIsGone(p, a, b, name);
      PsramMirrorsAll(p, a, x);
      if MirrorsOk(p, b, x) {
        PsramMirrorsAll(p, b, x);
      }
    } else {
      SessionMirrorIs(p, a, x);
      hide Stored, PartlyErased, MirrorOk;
      PartlyErasedSessions(p, a, b, x);
      SessionMirrorHolds(p, a, b, x);
    }
  }

  lemma ErasedName(a: Image, b: Image) returns (name: Name)
    requires PartlyErased(a, Sessions, b) && b != a
    ensures name in a.Get(Sessions) && name !in b.Get(Sessions)
  {
    name :| name in a.Get(Sessions) && name !in b.Get(Sessions);
  }

  lemma SessionMirrorIs(p: Platform, img: Image, x: StoreInner)
    requires MirrorsOk(p, img, x)
    ensures MirrorOk(p, img, x, Sessions) && (!p.hasPsram ==> x.sessions == map[])
  {
    assert MirrorOk(p, img, x, Sessions);
  }

  lemma SessionMirrorHolds(p: Platform, a: Image, b: Image, x: StoreInner)
    requires MirrorOk(p, a, x, Sessions) && (b == a || (!p.hasPsram && x.sessions == map[]))
    ensures MirrorOk(p, b, x, Sessions)
  {
  }

  /** A blank partition. */
  const EMPTY: Image := Image(map[], map[], map[], map[], map[], map[], map[], map[])

  lemma EmptyStoreIsFit(p: Platform)
    ensures Fit(p, EMPTY) && MirrorsOk(p, EMPTY, NOTHING) && Stored(p, EMPTY, Sessions) == map[]
  {
    forall ns ensures EMPTY.Get(ns) == map[] && (IsSignal(ns) ==> Replayable(p, ns, EMPTY.Get(ns))) {
      if IsSignal(ns) {
        EmptyIsReplayable(p, ns);
      }
    }
    NothingMirrorsBlank(p, EMPTY);
  }

  /** What filing the very first session amounts to, on flash and in RAM. */
  lemma FirstSession(p: Platform, address: Bytes, session: Bytes)
    requires p.hasPsram && p.isUtf8(address) && |address| <= MAX_KEY_LEN && |session| <= MAX_RECORD_LEN
    ensures IsSignal(Sessions) && KeyOk(p, Sessions, address) && ValueOk(p, Sessions, session)
    ensures SlotVerdict(p, EMPTY, Sessions, address, |session|, MaxRecords(Sessions)).Ok?
    ensures PartlyErased(Put(p, EMPTY, Sessions, address, session), Sessions, EMPTY)
    ensures EMPTY != Put(p, EMPTY, Sessions, address, session)
    ensures SameFlashElsewhere(EMPTY, Put(p, EMPTY, Sessions, address, session), Sessions)
    ensures address in UsedSession(p, NOTHING, address, session).sessions
  {
    hide NameOf;
  }

  /**
   * A failing input: with PSRAM, one session is stored and mirrored, its record is erased and the clear then fails. RAM
   * keeps a session that flash has lost.
   */
  lemma ErasedSessionStaysMirrored(p: Platform, address: Bytes, session: Bytes)
    requires p.hasPsram && p.isUtf8(address) && |address| <= MAX_KEY_LEN && |session| <= MAX_RECORD_LEN
    ensures
      var before, inner := Put(p, EMPTY, Sessions, address, session), UsedSession(p, NOTHING, address, session);
      && Fit(p, before) && MirrorsOk(p, before, inner) && PartlyErased(before, Sessions, EMPTY)
      && address in inner.sessions && address !in Stored(p, EMPTY, Sessions) && !MirrorsOk(p, EMPTY, inner)
  {
    var before, inner := Put(p, EMPTY, Sessions, address, session), UsedSession(p, NOTHING, address, session);
    EmptyStoreIsFit(p);
    FirstSession(p, address, session);
    hide *;
    PutKeepsFit(p, EMPTY, Sessions, address, session);
    SessionUsed(p, EMPTY, before, NOTHING, address, session);
    MirrorsAfterFailedClearIff(p, before, EMPTY, inner);
  }

  lemma BlankMirrored(p: Platform, img: Image)
    ensures MirrorsOk(p, Blank(img), NOTHING)
  {
    hide Blank;
    BlankHoldsNothing(img);
    BlankIsFit(p, img);
    hide Image.Get;
    NothingMirrorsBlank(p, Blank(img));
  }

  /** However a reset ended, the flash is still that of a store that can run. */
  lemma FlashAfterReset(p: Platform, before: Image, after: Image)
    requires Fit(p, before)
    requires after == before || after == Blank(before) || (MidReset(after) && Shrunk(Marked(before), after))
    ensures Fit(p, after)
  {
    MarkedIsFit(p, before);
    BlankIsFit(p, before);
    hide Fit, Marked, Blank, Shrunk, MidReset;
    if after != before && after != Blank(before) {
      ShrunkFit(p, Marked(before), after);
    }
  }

  /**
   * Without PSRAM an identity, once put or found on flash, stays mirrored until it is deleted, everything is reset, or
   * at least eight distinct other identities have been used.
   */
  lemma IdentityStaysMirrored(x: StoreInner, events: seq<Event<Bytes>>, y: StoreInner, i: nat, address: Bytes)
    requires Distinct(x.identityOrder) && Tracks(y.identityOrder, y.identities)
    requires y.identityOrder == AfterAll(x.identityOrder, events, MIRROR_CAP)
    requires i < |events| && events[i] == Used(address)
    requires Deleted(address) !in events[i + 1..] && Cleared !in events[i + 1..]
    requires |OthersUsed(events[i + 1..], address)| < MIRROR_CAP
    ensures address in y.identities
  {
    UsedKeyStaysMirrored(x.identityOrder, events, i, address, MIRROR_CAP);
    assert address in Elements(y.identityOrder);
  }
}
