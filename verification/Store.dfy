/** The store: RAM mirrors over the flash records, and the seal that maintenance puts on writes. */
module Store {
  import opened Prelude
  import opened RecordNames
  import opened Records
  import opened Images
  import opened NvsPartition
  import opened FlashRecords
  import opened Lru
  import opened LruRecency
  import opened Mirrors

  /** A persisted write. */
  datatype WriteOp =
    | PutIdentity(address: Bytes, key: Bytes)
    | PutIdentities(batch: seq<Entry>)
    | DeleteIdentity(address: Bytes)
    | PutSession(address: Bytes, session: Bytes)
    | PutSessions(batch: seq<Entry>)
    | DeleteSession(address: Bytes)
    | StorePrekey(ns: Ns, id: u32, record: Bytes)
    | RemovePrekey(ns: Ns, id: u32)
    | PutSenderKey(address: Bytes, record: Bytes)
    | DeleteSenderKey(address: Bytes)
    | SetSyncKey(keyId: Bytes, syncKey: SyncKey)
    | SaveDevice(device: Device)

  /** What the types of the arguments already promise. */
  predicate WellTyped(p: Platform, op: WriteOp) {
    match op
    case PutIdentity(address, key) => p.isUtf8(address) && |key| == 32
    case PutIdentities(batch) => forall e :: e in batch ==> p.isUtf8(e.key) && |e.value| == 32
    case PutSession(address, _) => p.isUtf8(address)
    case PutSessions(batch) => forall e :: e in batch ==> p.isUtf8(e.key)
    case PutSenderKey(address, _) => p.isUtf8(address)
    case StorePrekey(ns, _, _) => ns == Prekeys || ns == SignedPrekeys
    case RemovePrekey(ns, _) => ns == Prekeys || ns == SignedPrekeys
    case _ => true
  }

  class NvsStore {
    const p: Platform
    const flash: FlashNamespaces
    var inner: StoreInner
    var acceptingWrites: bool

    /** The flash contents at the moment writes were sealed. */
    ghost var sealedAt: Option<Image>

    /** How many contents the flash had had by then. */
    ghost var sealedSeen: nat

    ghost predicate Valid()
      reads this, flash, flash.nvs, flash.slots
    {
      flash.p == p && flash.Durable() && MirrorsOk(p, flash.nvs.image,
                                                   inner) && !ResetPending(flash.nvs.image.Get(Control))
    }

    /** What flash holds under each logical key of a namespace: the uncached store. */
    ghost function OnFlash(ns: Ns): map<Bytes, Bytes>
      reads this, flash, flash.nvs
    {
      Stored(p, flash.nvs.image, ns)
    }

    /** Whether flash itself turns down a record: too large, its name taken by another key, or no room for a new one. */
    ghost predicate Refused(ns: Ns, key: Bytes, valueLen: nat)
      reads this, flash, flash.nvs
    {
      !Storable(p, flash.nvs.image, ns, key, valueLen)
    }

    constructor (flash: FlashNamespaces, inner: StoreInner)
      requires flash.Durable() && MirrorsOk(flash.p, flash.nvs.image, inner)
      requires !ResetPending(flash.nvs.image.Get(Control))
      ensures Valid() && this.flash == flash && this.p == flash.p && this.inner == inner && acceptingWrites
      ensures sealedAt == None
    {
      this.p := flash.p;
      this.flash := flash;
      this.inner := inner;
      this.acceptingWrites := true;
      this.sealedAt := None;
      this.sealedSeen := 0;
    }

    method EnforceIdentitiesCap()
      requires Tracks(inner.identityOrder, inner.identities)
      modifies this`inner
      ensures inner == if p.hasPsram then old(inner) else
        old(inner).(identityOrder := Trimmed(old(inner).identityOrder, MIRROR_CAP, None),
                    identities := Kept(old(inner).identities, old(inner).identityOrder,
                                       Excess(old(inner).identityOrder, MIRROR_CAP), None))
    {
      if p.hasPsram {
        return;
      }
      TracksCount(inner.identityOrder, inner.identities);
      var rest, kept := Trim(inner.identityOrder, inner.identities, MIRROR_CAP, None);
      inner := inner.(identityOrder := rest, identities := kept);
    }

    /** Mirrors an identity as the most recently used one. */
    method MirrorIdentity(address: Bytes, key: Bytes)
      requires Tracks(Touch(inner.identityOrder, address), inner.identities[address := key])
      modifies this`inner
      ensures inner == UsedIdentity(p, old(inner), address, key)
    {
      hide Touch, Tracks, Trimmed, Kept;
      inner := inner.(identities := inner.identities[address := key],
                      identityOrder := Touch(inner.identityOrder, address));
      EnforceIdentitiesCap();
    }

    method WriteIdentity(address: Bytes, key: Bytes) returns (r: Result<()>)
      requires Valid() && p.isUtf8(address) && |key| == 32
      modifies this`inner, flash.nvs, flash.slots
      ensures Valid() && flash.nvs.faults >= old(flash.nvs.faults)
      ensures r.Ok? ==> !old(Refused(Identities, address, |key|))
      ensures r.Ok? ==> OnFlash(Identities) == old(OnFlash(Identities))[address := key]
      ensures r.Ok? ==> SameFlashElsewhere(old(flash.nvs.image), flash.nvs.image, Identities)
      ensures r.Ok? ==> inner == UsedIdentity(p, old(inner), address, key)
      ensures r.Err? ==> flash.nvs.image == old(flash.nvs.image) && inner == old(inner)
      ensures r.Err? ==> flash.nvs.faults > old(flash.nvs.faults) || Refused(Identities, address, |key|)
    {
      hide Stored, Image.Get, Storable, Put, Fit, AllReopenable, SlotsSound, UsedIdentity, MirrorsOk, MirrorOk;
      IdentityMirrorIsPart(p, flash.nvs.image, inner);
      r := EnsureInsertCapacity(address in inner.identities, |inner.identities|, MaxRecords(Identities));
      if r.Err? {
        MirrorCheckAgrees(p, flash.nvs.image, Identities, address, |key|, inner.identities.Keys);
        return;
      }
      ghost var before := flash.nvs.image;
      r := flash.PutRecord(Identities, address, key);
      if r.Ok? {
        IdentityUsed(p, before, flash.nvs.image, inner, address, key);
        MirrorIdentity(address, key);
      }
    }

    method PutIdentity(address: Bytes, key: Bytes) returns (r: Result<()>)
      requires acceptingWrites ==> Valid()
      requires p.isUtf8(address) && |key| == 32
      modifies this`inner, flash.nvs, flash.slots
      ensures flash.nvs.faults >= old(flash.nvs.faults)
      ensures acceptingWrites ==> Valid()
      ensures !acceptingWrites ==> unchanged(this) && unchanged(flash.nvs) && unchanged(flash.slots)
      ensures r.Ok? ==> acceptingWrites && !old(Refused(Identities, address, |key|))
      ensures r.Ok? ==> OnFlash(Identities) == old(OnFlash(Identities))[address := key]
      ensures r.Ok? ==> SameFlashElsewhere(old(flash.nvs.image), flash.nvs.image, Identities)
      ensures r.Ok? ==> inner == UsedIdentity(p, old(inner), address, key)
      ensures r.Err? ==> flash.nvs.image == old(flash.nvs.image) && inner == old(inner)
      ensures r.Err? ==>
                !acceptingWrites || flash.nvs.faults > old(flash.nvs.faults) || Refused(Identities, address, |key|)
    {
      hide *;
      if !acceptingWrites {
        return Err(Invalid);
      }
      r := WriteIdentity(address, key);
    }

    /** Flash and mirror end up as if the first `done` entries had been put one by one, and nothing else. */
    method PutIdentitiesBatch(batch: seq<Entry>) returns (r: Result<()>, ghost done: nat)
      requires acceptingWrites ==> Valid()
      requires forall e :: e in batch ==> p.isUtf8(e.key) && |e.value| == 32
      modifies this`inner, flash.nvs, flash.slots
      ensures acceptingWrites ==> Valid()
      ensures !acceptingWrites ==> unchanged(this) && unchanged(flash.nvs) && unchanged(flash.slots)
      ensures done <= |batch| && (r.Ok? <==> done == |batch|)
      ensures BatchPut(p, Identities, old(flash.nvs.image), flash.nvs.image, old(inner), inner, batch, done)
      ensures flash.nvs.faults >= old(flash.nvs.faults) && (done > 0 ==> acceptingWrites)
      ensures r.Err? ==> !acceptingWrites || flash.nvs.faults > old(flash.nvs.faults)
                         || Refused(Identities, batch[done].key, |batch[done].value|)
    {
      hide NvsStore.Valid, NvsStore.Refused, Stored, SameFlashElsewhere, BatchPut, UsedIdentity;
      ghost var start := flash.nvs.image;
      done := 0;
      NothingPutYet(p, Identities, start, inner, batch);
      if |batch| == 0 {
        return Ok(()), 0;
      }
      if !acceptingWrites {
        return Err(Invalid), 0;
      }
      for i := 0 to |batch|
        invariant Valid() && done == i && flash.nvs.faults >= old(flash.nvs.faults)
        invariant BatchPut(p, Identities, start, flash.nvs.image, old(inner), inner, batch, i)
      {
        hide NvsStore.Valid, NvsStore.Refused, Stored, SameFlashElsewhere, BatchPut, UsedIdentity;
        assert batch[i] in batch;
        ghost var img, was := flash.nvs.image, inner;
        r := WriteIdentity(batch[i].key, batch[i].value);
        if r.Err? {
          return;
        }
        OneMorePut(p, Identities, start, old(inner), batch, i, img, was, flash.nvs.image, inner);
        done := i + 1;
      }
      return Ok(()), done;
    }

    /** A hit, a miss and an evicted entry all answer what the uncached store would. */
    method LoadIdentity(address: Bytes) returns (r: Result<Option<Bytes>>)
      requires Valid()
      modifies this`inner, flash.nvs`faults, flash.slots
      ensures flash.nvs.faults >= old(flash.nvs.faults)
      ensures Valid() && flash.nvs.image == old(flash.nvs.image)
      ensures r.Ok? ==> r.value == Lookup(OnFlash(Identities), address)
      ensures r.Ok? && r.value.Some? && !p.hasPsram ==>
                inner.identityOrder == After(old(inner).identityOrder, Used(address), MIRROR_CAP)
      ensures r.Ok? && r.value.None? ==> inner == old(inner)
      ensures r.Ok? && r.value.Some? ==>
                inner == if address in old(inner).identities
                         then old(inner).(identityOrder := Touch(old(inner).identityOrder, address))
                         else UsedIdentity(p, old(inner), address, r.value.value)
      ensures r.Err? ==> flash.nvs.faults > old(flash.nvs.faults) && inner == old(inner)
    {
      hide Stored, Image.Get, Fit, AllReopenable, SlotsSound, Trimmed, Touch, Kept, MirrorsOk, MirrorOk;
      if address in inner.identities {
        IdentityHit(p, flash.nvs.image, inner, address);
        inner := inner.(identityOrder := Touch(inner.identityOrder, address));
        return Ok(Some(inner.identities[address]));
      }
      r := flash.LoadRecord(Identities, address);
      if r.Err? {
        return;
      }
      if r.value.Some? {
        IdentityIs32Bytes(p, flash.nvs.image, address);
        if |r.value.value| == 32 {
          assert OnFlash(Identities) == OnFlash(Identities)[address := r.value.value];
          SameFlash(flash.nvs.image, Identities);
          IdentityUsed(p, flash.nvs.image, flash.nvs.image, inner, address, r.value.value);
          MirrorIdentity(address, r.value.value);
          return;
        }
      }
      return Ok(None);
    }

    method DeleteIdentity(address: Bytes) returns (r: Result<()>)
      requires acceptingWrites ==> Valid()
      modifies this`inner, flash.nvs, flash.slots
      ensures flash.nvs.faults >= old(flash.nvs.faults)
      ensures acceptingWrites ==> Valid()
      ensures !acceptingWrites ==> unchanged(this) && unchanged(flash.nvs) && unchanged(flash.slots)
      ensures r.Ok? ==> acceptingWrites && OnFlash(Identities) == old(OnFlash(Identities)) - {address}
      ensures r.Ok? ==> SameFlashElsewhere(old(flash.nvs.image), flash.nvs.image, Identities)
      ensures r.Ok? ==> inner == old(inner).(identities := old(inner).identities - {address},
                                             identityOrder := Without(old(inner).identityOrder, address))
      ensures r.Err? ==> flash.nvs.image == old(flash.nvs.image) && inner == old(inner)
      ensures r.Err? ==> !acceptingWrites || flash.nvs.faults > old(flash.nvs.faults)
                         || (KeyName(p.hash,
                                     address) in flash.nvs.image.Get(Identities) && address !in OnFlash(Identities))
    {
      hide Stored, Image.Get, Fit, AllReopenable, SlotsSound, MirrorsOk, MirrorOk, Without, NameOf;
      if !acceptingWrites {
        return Err(Invalid);
      }
      ghost var before := flash.nvs.image;
      r := flash.DeleteRecord(Identities, address);
      if r.Err? {
        return;
      }
      IdentityDeleted(p, before, flash.nvs.image, inner, address);
      inner := inner.(identities := inner.identities - {address},
                      identityOrder := Without(inner.identityOrder, address));
    }

    method EnforceSessionsCap()
      requires Tracks(inner.sessionOrder, inner.sessions)
      modifies this`inner
      ensures inner == if p.hasPsram then old(inner) else
        old(inner).(sessionOrder := Trimmed(old(inner).sessionOrder, 0, None),
                    sessions := Kept(old(inner).sessions, old(inner).sessionOrder, Excess(old(inner).sessionOrder, 0),
                                     None))
    {
      if p.hasPsram {
        return;
      }
      TracksCount(inner.sessionOrder, inner.sessions);
      var rest, kept := Trim(inner.sessionOrder, inner.sessions, 0, None);
      inner := inner.(sessionOrder := rest, sessions := kept);
    }

    method MirrorSession(address: Bytes, session: Bytes)
      requires Tracks(Touch(inner.sessionOrder, address), inner.sessions[address := session])
      modifies this`inner
      ensures inner == UsedSession(p, old(inner), address, session)
    {
      hide Touch, Tracks, Trimmed, Kept;
      inner := inner.(sessions := inner.sessions[address := session],
                      sessionOrder := Touch(inner.sessionOrder, address));
      EnforceSessionsCap();
    }

    method WriteSession(address: Bytes, session: Bytes) returns (r: Result<()>)
      requires Valid() && p.isUtf8(address)
      modifies this`inner, flash.nvs, flash.slots
      ensures Valid() && flash.nvs.faults >= old(flash.nvs.faults)
      ensures r.Ok? ==> !old(Refused(Sessions, address, |session|))
      ensures r.Ok? ==> OnFlash(Sessions) == old(OnFlash(Sessions))[address := session]
      ensures r.Ok? ==> SameFlashElsewhere(old(flash.nvs.image), flash.nvs.image, Sessions)
      ensures r.Ok? ==> inner == UsedSession(p, old(inner), address, session)
      ensures r.Err? ==> flash.nvs.image == old(flash.nvs.image) && inner == old(inner)
      ensures r.Err? ==> flash.nvs.faults > old(flash.nvs.faults) || Refused(Sessions, address, |session|)
    {
      hide Stored, Image.Get, Storable, Put, Fit, AllReopenable, SlotsSound, UsedSession, MirrorsOk, MirrorOk;
      IdentityMirrorIsPart(p, flash.nvs.image, inner);
      r := EnsureInsertCapacity(address in inner.sessions, |inner.sessions|, MaxRecords(Sessions));
      if r.Err? {
        MirrorCheckAgrees(p, flash.nvs.image, Sessions, address, |session|, inner.sessions.Keys);
        return;
      }
      ghost var before := flash.nvs.image;
      r := flash.PutRecord(Sessions, address, session);
      if r.Ok? {
        SessionUsed(p, before, flash.nvs.image, inner, address, session);
        MirrorSession(address, session);
      }
    }

    /** The size is checked even before the seal. */
    method PutSession(address: Bytes, session: Bytes) returns (r: Result<()>)
      requires acceptingWrites ==> Valid()
      requires p.isUtf8(address)
      modifies this`inner, flash.nvs, flash.slots
      ensures flash.nvs.faults >= old(flash.nvs.faults)
      ensures acceptingWrites ==> Valid()
      ensures !acceptingWrites ==> unchanged(this) && unchanged(flash.nvs) && unchanged(flash.slots)
      ensures r.Ok? ==> acceptingWrites && !old(Refused(Sessions, address, |session|))
      ensures r.Ok? ==> OnFlash(Sessions) == old(OnFlash(Sessions))[address := session]
      ensures r.Ok? ==> SameFlashElsewhere(old(flash.nvs.image), flash.nvs.image, Sessions)
      ensures r.Ok? ==> inner == UsedSession(p, old(inner), address, session)
      ensures r.Err? ==> flash.nvs.image == old(flash.nvs.image) && inner == old(inner)
      ensures r.Err? ==>
                !acceptingWrites || flash.nvs.faults > old(flash.nvs.faults) || Refused(Sessions, address, |session|)
    {
      if |session| > MAX_RECORD_LEN {
        return Err(Invalid);
      }
      hide *;
      if !acceptingWrites {
        return Err(Invalid);
      }
      r := WriteSession(address, session);
    }

    /** The same for sessions. */
    method PutSessionsBatch(batch: seq<Entry>) returns (r: Result<()>, ghost done: nat)
      requires acceptingWrites ==> Valid()
      requires forall e :: e in batch ==> p.isUtf8(e.key)
      modifies this`inner, flash.nvs, flash.slots
      ensures acceptingWrites ==> Valid()
      ensures !acceptingWrites ==> unchanged(this) && unchanged(flash.nvs) && unchanged(flash.slots)
      ensures done <= |batch| && (r.Ok? <==> done == |batch|)
      ensures BatchPut(p, Sessions, old(flash.nvs.image), flash.nvs.image, old(inner), inner, batch, done)
      ensures flash.nvs.faults >= old(flash.nvs.faults) && (done > 0 ==> acceptingWrites)
      ensures r.Err? ==> !acceptingWrites || flash.nvs.faults > old(flash.nvs.faults)
                         || Refused(Sessions, batch[done].key, |batch[done].value|)
    {
      hide NvsStore.Valid, NvsStore.Refused, Stored, SameFlashElsewhere, BatchPut, UsedSession;
      ghost var start := flash.nvs.image;
      done := 0;
      NothingPutYet(p, Sessions, start, inner, batch);
      if |batch| == 0 {
        return Ok(()), 0;
      }
      if !acceptingWrites {
        return Err(Invalid), 0;
      }
      for i := 0 to |batch|
        invariant Valid() && done == i && flash.nvs.faults >= old(flash.nvs.faults)
        invariant BatchPut(p, Sessions, start, flash.nvs.image, old(inner), inner, batch, i)
      {
        hide NvsStore.Valid, NvsStore.Refused, Stored, SameFlashElsewhere, BatchPut, UsedSession;
        assert batch[i] in batch;
        ghost var img, was := flash.nvs.image, inner;
        r := WriteSession(batch[i].key, batch[i].value);
        if r.Err? {
          return;
        }
        OneMorePut(p, Sessions, start, old(inner), batch, i, img, was, flash.nvs.image, inner);
        done := i + 1;
      }
      return Ok(()), done;
    }

    method GetSession(address: Bytes) returns (r: Result<Option<Bytes>>)
      requires Valid()
      modifies this`inner, flash.nvs`faults, flash.slots
      ensures flash.nvs.faults >= old(flash.nvs.faults)
      ensures Valid() && flash.nvs.image == old(flash.nvs.image)
      ensures r.Ok? ==> r.value == Lookup(OnFlash(Sessions), address)
      ensures r.Ok? && r.value.None? ==> inner == old(inner)
      ensures r.Ok? && r.value.Some? ==>
                inner == if address in old(inner).sessions
                         then old(inner).(sessionOrder := Touch(old(inner).sessionOrder, address))
                         else UsedSession(p, old(inner), address, r.value.value)
      ensures r.Err? ==> flash.nvs.faults > old(flash.nvs.faults) && inner == old(inner)
    {
      hide Stored, Image.Get, Fit, AllReopenable, SlotsSound, Trimmed, Touch, Kept, MirrorsOk, MirrorOk;
      if address in inner.sessions {
        SessionHit(p, flash.nvs.image, inner, address);
        inner := inner.(sessionOrder := Touch(inner.sessionOrder, address));
        return Ok(Some(inner.sessions[address]));
      }
      r := flash.LoadRecord(Sessions, address);
      if r.Ok? && r.value.Some? {
        assert OnFlash(Sessions) == OnFlash(Sessions)[address := r.value.value];
        SameFlash(flash.nvs.image, Sessions);
        SessionUsed(p, flash.nvs.image, flash.nvs.image, inner, address, r.value.value);
        MirrorSession(address, r.value.value);
      }
    }

    method DeleteSession(address: Bytes) returns (r: Result<()>)
      requires acceptingWrites ==> Valid()
      modifies this`inner, flash.nvs, flash.slots
      ensures flash.nvs.faults >= old(flash.nvs.faults)
      ensures acceptingWrites ==> Valid()
      ensures !acceptingWrites ==> unchanged(this) && unchanged(flash.nvs) && unchanged(flash.slots)
      ensures r.Ok? ==> acceptingWrites && OnFlash(Sessions) == old(OnFlash(Sessions)) - {address}
      ensures r.Ok? ==> SameFlashElsewhere(old(flash.nvs.image), flash.nvs.image, Sessions)
      ensures r.Ok? ==> inner == old(inner).(sessions := old(inner).sessions - {address},
                                             sessionOrder := Without(old(inner).sessionOrder, address))
      ensures r.Err? ==> flash.nvs.image == old(flash.nvs.image) && inner == old(inner)
      ensures r.Err? ==> !acceptingWrites || flash.nvs.faults > old(flash.nvs.faults)
                         || (KeyName(p.hash, address) in flash.nvs.image.Get(Sessions) && address !in OnFlash(Sessions))
    {
      hide Stored, Image.Get, Fit, AllReopenable, SlotsSound, MirrorsOk, MirrorOk, Without, NameOf;
      if !acceptingWrites {
        return Err(Invalid);
      }
      ghost var before := flash.nvs.image;
      r := flash.DeleteRecord(Sessions, address);
      if r.Err? {
        return;
      }
      SessionDeleted(p, before, flash.nvs.image, inner, address);
      inner := inner.(sessions := inner.sessions - {address}, sessionOrder := Without(inner.sessionOrder, address));
    }

    /** Answers for what is persisted, although the mirrors may have forgotten it. */
    method HasSignalStateForUser(user: Bytes) returns (r: Result<bool>)
      requires Valid()
      modifies flash.nvs`faults
      ensures flash.nvs.faults >= old(flash.nvs.faults)
      ensures Valid()
      ensures r.Ok? ==> (r.value <==> AnyAddressOf(OnFlash(Sessions).Keys + OnFlash(Identities).Keys, user))
      ensures r.Err? ==> flash.nvs.faults > old(flash.nvs.faults)
    {
      hide Stored, Image.Get, Fit, AllReopenable, SlotsSound, AddressOf, MirrorOk;
      IdentityMirrorIsPart(p, flash.nvs.image, inner);
      if AnyAddressOf(inner.sessions.Keys, user) || AnyAddressOf(inner.identities.Keys, user) {
        return Ok(true);
      }
      if p.hasPsram {
        PsramMirrorsAll(p, flash.nvs.image, inner);
        return Ok(false);
      }
      var sessions := flash.NamespaceAddresses(Sessions);
      if sessions.Err? {
        return Err(sessions.error);
      }
      var identities := flash.NamespaceAddresses(Identities);
      if identities.Err? {
        return Err(identities.error);
      }
      assert forall a | a in sessions.value :: a in Elements(sessions.value);
      assert forall a | a in identities.value :: a in Elements(identities.value);
      return Ok(exists a :: a in sessions.value + identities.value && AddressOf(a, user));
    }

    /** Pre-keys and signed pre-keys differ only in their namespace. */
    method StoreNumbered(ns: Ns, id: u32, record: Bytes) returns (r: Result<()>)
      requires ns == Prekeys || ns == SignedPrekeys
      requires acceptingWrites ==> Valid()
      modifies this`inner, flash.nvs, flash.slots
      ensures flash.nvs.faults >= old(flash.nvs.faults)
      ensures acceptingWrites ==> Valid()
      ensures !acceptingWrites ==> unchanged(this) && unchanged(flash.nvs) && unchanged(flash.slots)
      ensures r.Ok? ==> acceptingWrites && !old(Refused(ns, LeBytes(id), |record|))
      ensures r.Ok? ==> OnFlash(ns) == old(OnFlash(ns))[LeBytes(id) := record]
      ensures r.Ok? ==> SameFlashElsewhere(old(flash.nvs.image), flash.nvs.image, ns)
      ensures r.Ok? ==> inner == WithNumbers(old(inner), ns, NumbersOf(old(inner), ns)[id := record])
      ensures r.Err? ==> flash.nvs.image == old(flash.nvs.image) && inner == old(inner)
      ensures r.Err? ==>
                !acceptingWrites || flash.nvs.faults > old(flash.nvs.faults) || Refused(ns, LeBytes(id), |record|)
    {
      hide *;
      if !acceptingWrites {
        return Err(Invalid);
      }
      r := WriteNumbered(ns, id, record);
    }

    method WriteNumbered(ns: Ns, id: u32, record: Bytes) returns (r: Result<()>)
      requires ns == Prekeys || ns == SignedPrekeys
      requires Valid()
      modifies this`inner, flash.nvs, flash.slots
      ensures flash.nvs.faults >= old(flash.nvs.faults) && Valid()
      ensures r.Ok? ==> !old(Refused(ns, LeBytes(id), |record|))
      ensures r.Ok? ==> OnFlash(ns) == old(OnFlash(ns))[LeBytes(id) := record]
      ensures r.Ok? ==> SameFlashElsewhere(old(flash.nvs.image), flash.nvs.image, ns)
      ensures r.Ok? ==> inner == WithNumbers(old(inner), ns, NumbersOf(old(inner), ns)[id := record])
      ensures r.Err? ==> flash.nvs.image == old(flash.nvs.image) && inner == old(inner)
      ensures r.Err? ==> flash.nvs.faults > old(flash.nvs.faults) || Refused(ns, LeBytes(id), |record|)
    {
      hide Stored, Image.Get, Storable, Put, Fit, AllReopenable, SlotsSound, MirrorsOk, MirrorOk, NumberMirror,
           LeBytes;
      NumberAt(p, flash.nvs.image, inner, ns, id);
      var numbers := if ns == Prekeys then inner.prekeys else inner.signedPrekeys;
      r := EnsureInsertCapacity(id in numbers, |numbers|, MaxRecords(ns));
      if r.Err? {
        NumberCheckAgrees(p, flash.nvs.image, ns, id, |record|, numbers);
        return;
      }
      ghost var before := flash.nvs.image;
      FourBytes(id);
      r := flash.PutRecord(ns, LeBytes(id), record);
      if r.Ok? {
        NumberStored(p, before, flash.nvs.image, inner, ns, id, record);
        if ns == Prekeys {
          inner := inner.(prekeys := inner.prekeys[id := record]);
        } else {
          inner := inner.(signedPrekeys := inner.signedPrekeys[id := record]);
        }
      }
    }

    /** Answered from RAM alone. */
    method LoadNumbered(ns: Ns, id: u32) returns (r: Option<Bytes>)
      requires Valid() && (ns == Prekeys || ns == SignedPrekeys)
      ensures r == Lookup(OnFlash(ns), LeBytes(id))
    {
      hide Stored, Image.Get, Fit, AllReopenable, SlotsSound, MirrorsOk, MirrorOk, LeBytes;
      NumberAt(p, flash.nvs.image, inner, ns, id);
      return if ns == Prekeys then Lookup(inner.prekeys, id) else Lookup(inner.signedPrekeys, id);
    }

    method RemoveNumbered(ns: Ns, id: u32) returns (r: Result<()>)
      requires ns == Prekeys || ns == SignedPrekeys
      requires acceptingWrites ==> Valid()
      modifies this`inner, flash.nvs, flash.slots
      ensures flash.nvs.faults >= old(flash.nvs.faults)
      ensures acceptingWrites ==> Valid()
      ensures !acceptingWrites ==> unchanged(this) && unchanged(flash.nvs) && unchanged(flash.slots)
      ensures r.Ok? ==> acceptingWrites && OnFlash(ns) == old(OnFlash(ns)) - {LeBytes(id)}
      ensures r.Ok? ==> SameFlashElsewhere(old(flash.nvs.image), flash.nvs.image, ns)
      ensures r.Ok? ==> inner == WithNumbers(old(inner), ns, NumbersOf(old(inner), ns) - {id})
      ensures r.Err? ==> flash.nvs.image == old(flash.nvs.image) && inner == old(inner)
      ensures r.Err? ==> !acceptingWrites || flash.nvs.faults > old(flash.nvs.faults)
                         || (KeyName(p.hash, LeBytes(id)) in flash.nvs.image.Get(ns) && LeBytes(id) !in OnFlash(ns))
    {
      hide Stored, Image.Get, Fit, AllReopenable, SlotsSound, MirrorsOk, MirrorOk, LeBytes, NameOf;
      if !acceptingWrites {
        return Err(Invalid);
      }
      ghost var before := flash.nvs.image;
      r := flash.DeleteRecord(ns, LeBytes(id));
      if r.Err? {
        return;
      }
      NumberRemoved(p, before, flash.nvs.image, inner, ns, id);
      if ns == Prekeys {
        inner := inner.(prekeys := inner.prekeys - {id});
      } else {
        inner := inner.(signedPrekeys := inner.signedPrekeys - {id});
      }
    }

    method PutSenderKey(address: Bytes, record: Bytes) returns (r: Result<()>)
      requires acceptingWrites ==> Valid()
      requires p.isUtf8(address)
      modifies this`inner, flash.nvs, flash.slots
      ensures flash.nvs.faults >= old(flash.nvs.faults)
      ensures acceptingWrites ==> Valid()
      ensures !acceptingWrites ==> unchanged(this) && unchanged(flash.nvs) && unchanged(flash.slots)
      ensures r.Ok? ==> acceptingWrites && !old(Refused(SenderKeys, address, |record|))
      ensures r.Ok? ==> OnFlash(SenderKeys) == old(OnFlash(SenderKeys))[address := record]
      ensures r.Ok? ==> SameFlashElsewhere(old(flash.nvs.image), flash.nvs.image, SenderKeys)
      ensures r.Ok? ==> inner == old(inner).(senderKeys := OnFlash(SenderKeys))
      ensures r.Err? ==> flash.nvs.image == old(flash.nvs.image) && inner == old(inner)
      ensures r.Err? ==>
                !acceptingWrites || flash.nvs.faults > old(flash.nvs.faults) || Refused(SenderKeys, address, |record|)
    {
      hide Stored, Image.Get, Storable, Put, Fit, AllReopenable, SlotsSound, MirrorsOk, MirrorOk;
      if !acceptingWrites {
        return Err(Invalid);
      }
      SenderKeysAre(p, flash.nvs.image, inner);
      r := EnsureInsertCapacity(address in inner.senderKeys, |inner.senderKeys|, MaxRecords(SenderKeys));
      if r.Err? {
        MirrorCheckAgrees(p, flash.nvs.image, SenderKeys, address, |record|, inner.senderKeys.Keys);
        return;
      }
      ghost var before := flash.nvs.image;
      r := flash.PutRecord(SenderKeys, address, record);
      if r.Ok? {
        SenderKeysEqualFlash(p, before, flash.nvs.image, inner, inner.senderKeys[address := record]);
        inner := inner.(senderKeys := inner.senderKeys[address := record]);
      }
    }

    method GetSenderKey(address: Bytes) returns (r: Option<Bytes>)
      requires Valid()
      ensures r == Lookup(OnFlash(SenderKeys), address)
    {
      hide Stored, Image.Get, Fit, AllReopenable, SlotsSound, MirrorsOk, MirrorOk;
      SenderKeysAre(p, flash.nvs.image, inner);
      return Lookup(inner.senderKeys, address);
    }

    method DeleteSenderKey(address: Bytes) returns (r: Result<()>)
      requires acceptingWrites ==> Valid()
      modifies this`inner, flash.nvs, flash.slots
      ensures flash.nvs.faults >= old(flash.nvs.faults)
      ensures acceptingWrites ==> Valid()
      ensures !acceptingWrites ==> unchanged(this) && unchanged(flash.nvs) && unchanged(flash.slots)
      ensures r.Ok? ==> acceptingWrites && OnFlash(SenderKeys) == old(OnFlash(SenderKeys)) - {address}
      ensures r.Ok? ==> SameFlashElsewhere(old(flash.nvs.image), flash.nvs.image, SenderKeys)
      ensures r.Ok? ==> inner == old(inner).(senderKeys := OnFlash(SenderKeys))
      ensures r.Err? ==> flash.nvs.image == old(flash.nvs.image) && inner == old(inner)
      ensures r.Err? ==> !acceptingWrites || flash.nvs.faults > old(flash.nvs.faults)
                         || (KeyName(p.hash,
                                     address) in flash.nvs.image.Get(SenderKeys) && address !in OnFlash(SenderKeys))
    {
      hide Stored, Image.Get, Fit, AllReopenable, SlotsSound, MirrorsOk, MirrorOk, NameOf;
      if !acceptingWrites {
        return Err(Invalid);
      }
      ghost var before := flash.nvs.image;
      SenderKeysAre(p, before, inner);
      r := flash.DeleteRecord(SenderKeys, address);
      if r.Err? {
        return;
      }
      SenderKeysEqualFlash(p, before, flash.nvs.image, inner, inner.senderKeys - {address});
      inner := inner.(senderKeys := inner.senderKeys - {address});
    }

    method EnforceSyncKeysCap()
      requires Tracks(inner.syncKeyOrder, inner.syncKeys)
      modifies this`inner
      ensures inner == if p.hasPsram then old(inner) else
        old(inner).(syncKeyOrder := Trimmed(old(inner).syncKeyOrder, MIRROR_CAP, old(inner).latestSyncKeyId),
                    syncKeys := Kept(old(inner).syncKeys, old(inner).syncKeyOrder,
                                     Excess(old(inner).syncKeyOrder, MIRROR_CAP), old(inner).latestSyncKeyId))
    {
      if p.hasPsram {
        return;
      }
      TracksCount(inner.syncKeyOrder, inner.syncKeys);
      var rest, kept := Trim(inner.syncKeyOrder, inner.syncKeys, MIRROR_CAP, inner.latestSyncKeyId);
      inner := inner.(syncKeyOrder := rest, syncKeys := kept);
    }

    method MirrorSyncKey(id: Bytes, key: SyncKey, latest: Option<Bytes>)
      requires Tracks(Touch(inner.syncKeyOrder, id), inner.syncKeys[id := key])
      modifies this`inner
      ensures inner == UsedSyncKey(p, old(inner), id, key, latest) && inner.latestSyncKeyId == latest
    {
      hide Touch, Tracks, Trimmed, Kept;
      inner := inner.(latestSyncKeyId := latest, syncKeys := inner.syncKeys[id := key],
                      syncKeyOrder := Touch(inner.syncKeyOrder, id));
      EnforceSyncKeysCap();
    }

    method GetSyncKey(id: Bytes) returns (r: Result<Option<SyncKey>>)
      requires Valid()
      modifies this`inner, flash.nvs`faults, flash.slots
      ensures flash.nvs.faults >= old(flash.nvs.faults)
      ensures Valid() && flash.nvs.image == old(flash.nvs.image)
      ensures r.Ok? && r.value.None? ==> inner == old(inner)
      ensures r.Ok? && r.value.Some? ==>
                inner == if id in old(inner).syncKeys
                         then old(inner).(syncKeyOrder := Touch(old(inner).syncKeyOrder, id))
                         else UsedSyncKey(p, old(inner), id, r.value.value, old(inner).latestSyncKeyId)
      ensures r.Ok? ==> r.value == if id in OnFlash(SyncKeys) then p.parseSyncKey(OnFlash(SyncKeys)[id]) else None
      ensures r.Err? ==> flash.nvs.faults > old(flash.nvs.faults) && inner == old(inner)
    {
      hide Stored, Image.Get, Fit, AllReopenable, SlotsSound, Trimmed, Touch, Kept, MirrorsOk, MirrorOk;
      if id in inner.syncKeys {
        SyncKeyHit(p, flash.nvs.image, inner, id);
        inner := inner.(syncKeyOrder := Touch(inner.syncKeyOrder, id));
        return Ok(Some(inner.syncKeys[id]));
      }
      var read := flash.LoadRecord(SyncKeys, id);
      if read.Err? {
        return Err(read.error);
      }
      if read.value.None? {
        return Ok(None);
      }
      SyncKeyParses(p, flash.nvs.image, id);
      var key := p.parseSyncKey(read.value.value);
      if key.None? {
        return Err(Invalid);
      }
      assert OnFlash(SyncKeys) == OnFlash(SyncKeys)[id := read.value.value];
      SameFlash(flash.nvs.image, SyncKeys);
      SyncKeyUsed(p, flash.nvs.image, flash.nvs.image, inner, id, key.value, read.value.value, inner.latestSyncKeyId);
      MirrorSyncKey(id, key.value, inner.latestSyncKeyId);
      return Ok(key);
    }

    /** The marker and the key, one after the other, then the mirror. */
    method WriteSyncKey(id: Bytes, key: SyncKey) returns (r: Result<()>)
      requires Valid() && p.JsonRoundTrips()
      modifies this`inner, flash.nvs, flash.slots
      ensures flash.nvs.faults >= old(flash.nvs.faults)
      ensures Valid()
      ensures r.Ok? ==> !old(Refused(SyncKeys, id, |p.syncKeyJson(key)|))
      ensures r.Ok? ==> OnFlash(SyncKeys) == old(OnFlash(SyncKeys))[id := p.syncKeyJson(key)]
      ensures r.Ok? ==> SameFlashElsewhere(old(flash.nvs.image), flash.nvs.image, SyncKeys)
      ensures r.Ok? ==> LoadedMarker(flash.nvs.image.control) == Ok(Some(id)) && inner.latestSyncKeyId == Some(id)
      ensures r.Ok? ==>
                inner == UsedSyncKey(p, old(inner), id, key, Some(id)) && (p.hasPsram || |inner.syncKeys| <= MIRROR_CAP)
      ensures r.Err? ==> inner == old(inner) && SameButControl(old(flash.nvs.image), flash.nvs.image)
      ensures r.Err? ==> flash.nvs.image == old(flash.nvs.image)
                         || (|id| <= MAX_KEY_LEN && flash.nvs.image == WithLatest(old(flash.nvs.image), id))
      ensures r.Err? ==> flash.nvs.faults > old(flash.nvs.faults) || old(Refused(SyncKeys, id, |p.syncKeyJson(key)|))
    {
      hide WithLatest, Stored, Image.Get, Storable, Put, Fit, AllReopenable, SlotsSound, MirrorsOk, MirrorOk,
           LoadedMarker, UsedSyncKey, Touch;
      SyncMirrorFacts(p, flash.nvs.image, inner);
      var payload := p.syncKeyJson(key);
      assert p.parseSyncKey(payload) == Some(key);
      hide Platform.JsonRoundTrips;
      r := EnsureInsertCapacity(id in inner.syncKeys, |inner.syncKeys|, MaxRecords(SyncKeys));
      if r.Err? {
        MirrorCheckAgrees(p, flash.nvs.image, SyncKeys, id, |payload|, inner.syncKeys.Keys);
        return;
      }
      ghost var before := flash.nvs.image;
      r := flash.PutLatestSyncKey(id, payload);
      if r.Ok? {
        SyncKeyUsed(p, before, flash.nvs.image, inner, id, key, payload, Some(id));
        MirrorSyncKey(id, key, Some(id));
      } else {
        MirrorsIgnoreControl(p, before, flash.nvs.image, inner);
      }
    }

    /** On success the key is on flash, recorded there as the latest, mirrored, and the mirror back within its cap. */
    method SetSyncKey(id: Bytes, key: SyncKey) returns (r: Result<()>)
      requires acceptingWrites ==> Valid()
      requires p.JsonRoundTrips()
      modifies this`inner, flash.nvs, flash.slots
      ensures flash.nvs.faults >= old(flash.nvs.faults)
      ensures acceptingWrites ==> Valid()
      ensures !acceptingWrites ==> unchanged(this) && unchanged(flash.nvs) && unchanged(flash.slots)
      ensures r.Ok? ==> acceptingWrites && !old(Refused(SyncKeys, id, |p.syncKeyJson(key)|))
      ensures r.Ok? ==> OnFlash(SyncKeys) == old(OnFlash(SyncKeys))[id := p.syncKeyJson(key)]
      ensures r.Ok? ==> SameFlashElsewhere(old(flash.nvs.image), flash.nvs.image, SyncKeys)
      ensures r.Ok? ==> LoadedMarker(flash.nvs.image.control) == Ok(Some(id)) && inner.latestSyncKeyId == Some(id)
      ensures r.Ok? ==>
                inner == UsedSyncKey(p, old(inner), id, key, Some(id)) && (p.hasPsram || |inner.syncKeys| <= MIRROR_CAP)
      ensures r.Err? ==> inner == old(inner) && SameButControl(old(flash.nvs.image), flash.nvs.image)
      ensures r.Err? ==> flash.nvs.image == old(flash.nvs.image)
                         || (|id| <= MAX_KEY_LEN && flash.nvs.image == WithLatest(old(flash.nvs.image), id))
      ensures r.Err? ==> !acceptingWrites || flash.nvs.faults > old(flash.nvs.faults)
                         || old(Refused(SyncKeys, id, |p.syncKeyJson(key)|))
    {
      if !acceptingWrites {
        return Err(Invalid);
      }
      hide *;
      r := WriteSyncKey(id, key);
    }

    method SaveDevice(device: Device) returns (r: Result<()>)
      requires acceptingWrites ==> Valid()
      requires p.JsonRoundTrips()
      modifies this`inner, flash.nvs
      ensures flash.nvs.faults >= old(flash.nvs.faults)
      ensures acceptingWrites ==> Valid()
      ensures !acceptingWrites ==> unchanged(this) && unchanged(flash.nvs)
      ensures r.Ok? ==> acceptingWrites && LoadedDevice(p, flash.nvs.image.linked) == Ok(Some(device))
      ensures r.Ok? ==>
                && inner == old(inner).(device := Some(device))
                && SameFlashElsewhere(old(flash.nvs.image), flash.nvs.image, Linked)
      ensures r.Err? ==> flash.nvs.image == old(flash.nvs.image) && inner == old(inner)
      ensures r.Err? ==>
                !acceptingWrites || flash.nvs.faults > old(flash.nvs.faults) || |p.deviceJson(device)| > MAX_DEVICE_LEN
    {
      hide Stored, Image.Get, Fit, AllReopenable, SlotsSound, MirrorsOk, MirrorOk, LoadedDevice,
           Platform.JsonRoundTrips;
      if !acceptingWrites {
        return Err(Invalid);
      }
      ghost var before := flash.nvs.image;
      r := flash.SaveDevice(device);
      if r.Ok? {
        DeviceSaved(p, before, flash.nvs.image, inner, device);
        inner := inner.(device := Some(device));
      }
    }

    /** Answered from RAM alone, and yet what the next boot would load. */
    method LoadDevice() returns (r: Option<Device>)
      requires Valid()
      ensures LoadedDevice(p, flash.nvs.image.linked) == Ok(r)
    {
      hide LoadedDevice;
      DeviceIs(p, flash.nvs.image, inner);
      return inner.device;
    }

    method DeviceExists() returns (r: bool)
      requires Valid()
      ensures r <==> LoadedDevice(p, flash.nvs.image.linked) != Ok(None)
    {
      hide LoadedDevice;
      DeviceIs(p, flash.nvs.image, inner);
      return inner.device.Some?;
    }

    /** From here on every persisted write is refused. */
    method SealWrites()
      modifies this`acceptingWrites, this`sealedAt, this`sealedSeen
      ensures flash.nvs.faults >= old(flash.nvs.faults)
      ensures !acceptingWrites
      ensures sealedAt == if old(acceptingWrites) then Some(flash.nvs.image) else old(sealedAt)
      ensures sealedSeen == if old(acceptingWrites) then |flash.nvs.trail| else old(sealedSeen)
    {
      if acceptingWrites {
        sealedAt, sealedSeen := Some(flash.nvs.image), |flash.nvs.trail|;
      }
      acceptingWrites := false;
    }

    /** All mirrors but that of the sessions can be trusted: what a failed erase of the sessions leaves. */
    ghost predicate ValidButSessions()
      reads this, flash, flash.nvs, flash.slots
    {
      && flash.p == p && flash.Durable() && !ResetPending(flash.nvs.image.Get(Control))
      && forall ns :: ns != Sessions ==> MirrorOk(p, flash.nvs.image, inner, ns)
    }

    method ClearSessions() returns (r: Result<nat>)
      requires ValidButSessions()
      modifies this`inner, flash.nvs, flash.slots
      ensures ValidButSessions() && flash.nvs.faults >= old(flash.nvs.faults)
      ensures PartlyErased(old(flash.nvs.image), Sessions, flash.nvs.image) && old(flash.nvs.trail) <= flash.nvs.trail
      ensures forall i :: |old(flash.nvs.trail)| <= i < |flash.nvs.trail| ==>
                PartlyErased(old(flash.nvs.image), Sessions, flash.nvs.trail[i])
      ensures r.Ok? ==> Valid() && flash.nvs.image == old(flash.nvs.image).Set(Sessions, map[])
      ensures r.Ok? ==> r.value == |old(flash.nvs.image).Get(Sessions)|
      ensures r.Ok? ==> inner == old(inner).(sessions := map[], sessionOrder := [])
      ensures r.Err? ==> flash.nvs.faults > old(flash.nvs.faults) && inner == old(inner)
      ensures r.Err? && old(Valid()) ==> (Valid() <==> !p.hasPsram || flash.nvs.image == old(flash.nvs.image))
    {
      ghost var before := flash.nvs.image;
      ghost var was := MirrorsOk(p, before, inner);
      assert was <==> Valid();
      hide Stored, Fit, AllReopenable, SlotsSound, MirrorOk, Image.Get, Image.Set, PartlyErased;
      r := flash.ClearSessions();
      if r.Ok? {
        SessionsCleared(p, before, flash.nvs.image, inner);
        inner := inner.(sessions := map[], sessionOrder := []);
      } else {
        PartlyErasedSessions(p, before, flash.nvs.image, inner);
        if was {
          MirrorsAfterFailedClearIff(p, before, flash.nvs.image, inner);
        }
      }
    }

    /** A factory reset needs nothing of the mirrors; what fails half-way the next boot completes. */
    method Reset() returns (r: Result<()>)
      requires flash.p == p && flash.Durable()
      modifies this`inner, flash.nvs, flash.slots
      ensures flash.Durable() && flash.nvs.faults >= old(flash.nvs.faults)
      ensures r.Ok? ==> Valid() && flash.nvs.image == Blank(old(flash.nvs.image)) && inner == NOTHING
      ensures r.Err? ==> inner == old(inner) && flash.nvs.faults > old(flash.nvs.faults)
      ensures r.Err? && old(Valid()) ==> (Valid() <==> flash.nvs.image == old(flash.nvs.image))
      ensures old(flash.nvs.trail) <= flash.nvs.trail && ResetMoment(old(flash.nvs.image), flash.nvs.image)
      ensures forall i :: |old(flash.nvs.trail)| <= i < |flash.nvs.trail| ==>
                ResetMoment(old(flash.nvs.image), flash.nvs.trail[i])
    {
      ghost var before, seen := flash.nvs.image, |flash.nvs.trail|;
      assert flash.Valid() && Fit(p, before) && AllReopenable(p, flash.nvs.trail);
      hide Fit, AllReopenable, MirrorsOk, MidReset, Resetting, Blank, Marked, Shrunk, ResetMoment,
           FlashNamespaces.Valid;
      r := flash.ResetAll();
      assert flash.nvs.trail[..seen] == old(flash.nvs.trail);
      FlashAfterReset(p, before, flash.nvs.image);
      ResetMomentsReopen(p, before, flash.nvs.trail, seen);
      MomentsOfReset(before, flash.nvs.image, flash.nvs.trail, seen);
      MidResetIsPending(flash.nvs.image);
      if r.Ok? {
        BlankMirrored(p, before);
        BlankNotPending(before);
        inner := NOTHING;
      }
    }
  }
}
