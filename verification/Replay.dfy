/** The boot replay: rebuilding each mirror from the records of its namespace, in whatever order flash yields them. */
module Replay {
  import opened Prelude
  import opened Records
  import opened Images
  import opened FlashRecords
  import opened Lru
  import opened Mirrors

  /** The records of a namespace all pass the checks its replay makes on keys and values. */
  ghost predicate AllPass(p: Platform, ns: Ns, stored: map<Bytes, Bytes>) {
    forall k :: k in stored ==> KeyOk(p, ns, k) && ValueOk(p, ns, stored[k])
  }

  ghost predicate PassFirst(p: Platform, ns: Ns, entries: seq<Entry>, n: nat) {
    forall i :: 0 <= i < n <= |entries| ==> KeyOk(p, ns, entries[i].key) && ValueOk(p, ns, entries[i].value)
  }

  lemma PassedAll(p: Platform, ns: Ns, entries: seq<Entry>, stored: map<Bytes, Bytes>)
    requires Enumerates(entries, stored) && PassFirst(p, ns, entries, |entries|)
    ensures AllPass(p, ns, stored)
  {
  }

  lemma OneMorePasses(p: Platform, ns: Ns, entries: seq<Entry>, n: nat)
    requires n < |entries| && PassFirst(p, ns, entries, n)
    requires KeyOk(p, ns, entries[n].key) && ValueOk(p, ns, entries[n].value)
    ensures PassFirst(p, ns, entries, n + 1)
  {
  }

  lemma OneFails(p: Platform, ns: Ns, entries: seq<Entry>, stored: map<Bytes, Bytes>, n: nat)
    requires Enumerates(entries, stored) && n < |entries|
    requires !KeyOk(p, ns, entries[n].key) || !ValueOk(p, ns, entries[n].value)
    ensures !AllPass(p, ns, stored)
  {
    assert entries[n].key in stored;
  }

  /** The map replayed so far agrees with the stored one and holds exactly the entries seen. */
  lemma {:induction false} PutFirstIs(entries: seq<Entry>, stored: map<Bytes, Bytes>, n: nat)
    requires Enumerates(entries, stored) && n <= |entries|
    ensures SubMap(PutFirst(map[], entries, n), stored)
    ensures forall i :: 0 <= i < |entries| ==> (entries[i].key in PutFirst(map[], entries, n) <==> i < n)
  {
    if n > 0 {
      PutFirstIs(entries, stored, n - 1);
    }
  }

  lemma AllPut(entries: seq<Entry>, stored: map<Bytes, Bytes>)
    requires Enumerates(entries, stored)
    ensures PutFirst(map[], entries, |entries|) == stored
  {
    PutFirstIs(entries, stored, |entries|);
    hide PutFirst;
    forall k | k in stored ensures k in PutFirst(map[], entries, |entries|) {
      var i :| 0 <= i < |entries| && entries[i].key == k;
    }
  }

  /** No key is met twice, so the replay's duplicate check never fires. */
  lemma KeyIsNew(entries: seq<Entry>, stored: map<Bytes, Bytes>, n: nat)
    requires Enumerates(entries, stored) && n < |entries|
    ensures entries[n].key !in PutFirst(map[], entries, n)
  {
    PutFirstIs(entries, stored, n);
  }

  /** The keys of the first `n` entries, in the order flash yields them. */
  ghost function KeysFirst(entries: seq<Entry>, n: nat): seq<Bytes>
    requires n <= |entries|
  {
    if n == 0 then [] else KeysFirst(entries, n - 1) + [entries[n - 1].key]
  }

  /** Inserting, touching and enforcing the cap, as the replay does for each identity and session. */
  method UseMirrored(p: Platform, mirror: map<Bytes, Bytes>, order: seq<Bytes>, ghost before: map<Bytes, Bytes>,
                     key: Bytes, value: Bytes, cap: nat)
    returns (kept: map<Bytes, Bytes>, rest: seq<Bytes>)
    requires CappedMirror(p.hasPsram, mirror, order, before, cap)
    ensures CappedMirror(p.hasPsram, kept, rest, before[key := value], cap)
    ensures key !in before ==> rest == if p.hasPsram then order + [key] else Youngest(order + [key], cap)
  {
    TouchTracks(order, mirror, key, value);
    TrimmedIsYoungest(Touch(order, key), cap, None);
    NewKeyIsLast(p.hasPsram, mirror, order, before, key, cap);
    MirrorAfterUse(p.hasPsram, mirror, order, before, key, value, before[key := value], cap);
    hide CappedMirror, Touch, Trimmed, Kept, Excess, Youngest;
    kept, rest := mirror[key := value], Touch(order, key);
    if !p.hasPsram {
      TracksCount(rest, kept);
      rest, kept := Trim(rest, kept, cap, None);
    }
  }

  lemma NewKeyIsLast(psram: bool, mirror: map<Bytes, Bytes>, order: seq<Bytes>, before: map<Bytes, Bytes>, key: Bytes,
                     cap: nat)
    requires CappedMirror(psram, mirror, order, before, cap)
    ensures key !in before ==> Touch(order, key) == order + [key]
  {
    assert key in order ==> key in Elements(order);
  }

  /** Identities and sessions: the mirror keeps the records met last, within its cap, and misses read flash. */
  method ReplayCapped(p: Platform, ns: Ns, entries: seq<Entry>, cap: nat, ghost stored: map<Bytes, Bytes>)
    returns (ok: bool, mirror: map<Bytes, Bytes>, order: seq<Bytes>)
    requires ns == Identities || ns == Sessions
    requires Enumerates(entries, stored)
    ensures ok <==> AllPass(p, ns, stored)
    ensures ok ==> CappedMirror(p.hasPsram, mirror, order, stored, cap)
    ensures ok ==>
              var met := KeysFirst(entries, |entries|);
              order == if p.hasPsram then met else Youngest(met, cap)
    ensures ok && !p.hasPsram ==> |mirror| == Min(|stored|, cap)
  {
    mirror, order := map[], [];
    hide *;
    NothingReplayed(p, ns, entries, cap);
    for i := 0 to |entries|
      invariant CappedMirror(p.hasPsram, mirror, order, PutFirst(map[], entries, i), cap)
      invariant order == if p.hasPsram then KeysFirst(entries, i) else Youngest(KeysFirst(entries, i), cap)
      invariant PassFirst(p, ns, entries, i)
    {
      hide *;
      var entry := entries[i];
      if !KeyOk(p, ns, entry.key) || !ValueOk(p, ns, entry.value) {
        OneFails(p, ns, entries, stored, i);
        return false, mirror, order;
      }
      OneMorePasses(p, ns, entries, i);
      KeyIsNew(entries, stored, i);
      MirroredAreStored(p.hasPsram, mirror, order, PutFirst(map[], entries, i), cap);
      if entry.key in mirror {
        return false, mirror, order;
      }
      PutOneMore(map[], entries, i);
      OneMoreMet(entries, i, cap);
      mirror, order := UseMirrored(p, mirror, order, PutFirst(map[], entries, i), entry.key, entry.value, cap);
    }
    AllPut(entries, stored);
    PassedAll(p, ns, entries, stored);
    AllMet(entries, stored, cap);
    MirroredAreStored(p.hasPsram, mirror, order, stored, cap);
    TracksCount(order, mirror);
    return true, mirror, order;
  }

  lemma {:induction false} PutFirstCount(entries: seq<Entry>, stored: map<Bytes, Bytes>, n: nat)
    requires Enumerates(entries, stored) && n <= |entries|
    ensures |PutFirst(map[], entries, n)| == |KeysFirst(entries, n)| == n
  {
    if n > 0 {
      PutFirstCount(entries, stored, n - 1);
      KeyIsNew(entries, stored, n - 1);
      UpdateCount(PutFirst(map[], entries, n - 1), entries[n - 1].key, entries[n - 1].value);
      hide Enumerates;
    }
  }

  lemma AllMet(entries: seq<Entry>, stored: map<Bytes, Bytes>, cap: nat)
    requires Enumerates(entries, stored)
    ensures |KeysFirst(entries, |entries|)| == |stored| == |entries|
    ensures |Youngest(KeysFirst(entries, |entries|), cap)| == Min(|stored|, cap)
  {
    AllPut(entries, stored);
    PutFirstCount(entries, stored, |entries|);
  }

  lemma OneMoreMet(entries: seq<Entry>, n: nat, cap: nat)
    requires n < |entries|
    ensures KeysFirst(entries, n + 1) == KeysFirst(entries, n) + [entries[n].key]
    ensures Youngest(Youngest(KeysFirst(entries, n), cap) + [entries[n].key], cap)
            == Youngest(KeysFirst(entries, n + 1), cap)
  {
    YoungestGrows(KeysFirst(entries, n), entries[n].key, cap);
    hide Youngest;
  }

  lemma NothingReplayed(p: Platform, ns: Ns, entries: seq<Entry>, cap: nat)
    ensures CappedMirror(p.hasPsram, map[], [], PutFirst(map[], entries, 0), cap)
    ensures PassFirst(p, ns, entries, 0) && KeysFirst(entries, 0) == Youngest([], cap) == []
    ensures NumberMirror(map[], PutFirst(map[], entries, 0))
    ensures SyncMirror(p, map[], [], None, PutFirst(map[], entries, 0))
  {
  }

  lemma MirroredAreStored(psram: bool, mirror: map<Bytes, Bytes>, order: seq<Bytes>, stored: map<Bytes, Bytes>,
                          cap: nat)
    requires CappedMirror(psram, mirror, order, stored, cap)
    ensures mirror.Keys <= stored.Keys && Tracks(order, mirror)
  {
  }

  function NumberOf(key: Bytes): Option<u32> {
    if |key| == 4 then Some(FromLeBytes(key)) else None
  }

  /** Pre-keys and signed pre-keys: all of them, under the number their key spells. */
  method ReplayNumbered(p: Platform, ns: Ns, entries: seq<Entry>, ghost stored: map<Bytes, Bytes>)
    returns (ok: bool, mirror: map<u32, Bytes>)
    requires ns == Prekeys || ns == SignedPrekeys
    requires Enumerates(entries, stored)
    ensures ok <==> AllPass(p, ns, stored)
    ensures ok ==> NumberMirror(mirror, stored)
  {
    mirror := map[];
    hide Enumerates, AllPass, NumberMirror, PutFirst, PassFirst, FromLeBytes, LeBytes;
    NothingReplayed(p, ns, entries, 0);
    for i := 0 to |entries|
      invariant NumberMirror(mirror, PutFirst(map[], entries, i))
      invariant PassFirst(p, ns, entries, i)
    {
      hide Enumerates, AllPass, NumberMirror, PutFirst, PassFirst, FromLeBytes, LeBytes;
      var id := NumberOf(entries[i].key);
      if id.None? {
        OneFails(p, ns, entries, stored, i);
        return false, mirror;
      }
      OneMorePasses(p, ns, entries, i);
      KeyIsNew(entries, stored, i);
      FromLeBytesRoundTrip(entries[i].key);
      NumberedAt(mirror, PutFirst(map[], entries, i), id.value);
      if id.value in mirror {
        return false, mirror;
      }
      PutOneMore(map[], entries, i);
      NumberMirrorPut(mirror, PutFirst(map[], entries, i), id.value, entries[i].value);
      mirror := mirror[id.value := entries[i].value];
    }
    AllPut(entries, stored);
    PassedAll(p, ns, entries, stored);
    return true, mirror;
  }

  lemma NumberedAt(mirror: map<u32, Bytes>, stored: map<Bytes, Bytes>, id: u32)
    requires NumberMirror(mirror, stored)
    ensures id in mirror <==> LeBytes(id) in stored
  {
    assert Lookup(mirror, id) == Lookup(stored, LeBytes(id));
  }

  method ReplaySenderKeys(p: Platform, entries: seq<Entry>, ghost stored: map<Bytes, Bytes>)
    returns (ok: bool, mirror: map<Bytes, Bytes>)
    requires Enumerates(entries, stored)
    ensures ok <==> AllPass(p, SenderKeys, stored)
    ensures ok ==> mirror == stored
  {
    mirror := map[];
    hide Enumerates, AllPass, PutFirst, PassFirst;
    NothingPut(map[], entries);
    NothingReplayed(p, SenderKeys, entries, 0);
    for i := 0 to |entries|
      invariant mirror == PutFirst(map[], entries, i)
      invariant PassFirst(p, SenderKeys, entries, i)
    {
      hide Enumerates, AllPass, PutFirst, PassFirst;
      if !p.isUtf8(entries[i].key) {
        OneFails(p, SenderKeys, entries, stored, i);
        return false, mirror;
      }
      OneMorePasses(p, SenderKeys, entries, i);
      KeyIsNew(entries, stored, i);
      if entries[i].key in mirror {
        return false, mirror;
      }
      PutOneMore(map[], entries, i);
      mirror := mirror[entries[i].key := entries[i].value];
    }
    AllPut(entries, stored);
    PassedAll(p, SenderKeys, entries, stored);
    return true, mirror;
  }

  /** `id` carries the largest timestamp of all stored keys. */
  ghost predicate Newest(p: Platform, stored: map<Bytes, Bytes>, id: Bytes) {
    && id in stored && p.parseSyncKey(stored[id]).Some?
    && forall k :: k in stored && p.parseSyncKey(stored[k]).Some? ==>
         p.parseSyncKey(stored[k]).value.timestamp <= p.parseSyncKey(stored[id]).value.timestamp
  }

  /** The best guess at the latest key so far: the newest of those met, if any was met. */
  ghost predicate BestSoFar(p: Platform, stored: map<Bytes, Bytes>, latest: Option<Bytes>) {
    if latest.None? then stored == map[] else Newest(p, stored, latest.value)
  }

  /** Whether the replay takes a key for the latest: nothing better is known, or what is known is not newer. */
  function TakesLead(mirror: map<Bytes, SyncKey>, latest: Option<Bytes>, key: SyncKey): bool {
    latest.None? || latest.value !in mirror || key.timestamp >= mirror[latest.value].timestamp
  }

  lemma LeadIsBest(p: Platform, mirror: map<Bytes, SyncKey>, order: seq<Bytes>, latest: Option<Bytes>,
                   before: map<Bytes, Bytes>,
                   id: Bytes, key: SyncKey, payload: Bytes)
    requires SyncMirror(p, mirror, order, latest, before) && BestSoFar(p, before, latest)
    requires id !in before && p.parseSyncKey(payload) == Some(key)
    ensures BestSoFar(p, before[id := payload], if TakesLead(mirror, latest, key) then Some(id) else latest)
  {
  }

  method UseSyncKey(p: Platform, mirror: map<Bytes, SyncKey>, order: seq<Bytes>, id: Bytes, key: SyncKey,
                    protected: Option<Bytes>)
    returns (kept: map<Bytes, SyncKey>, rest: seq<Bytes>)
    requires Tracks(order, mirror)
    ensures
      var grown, touched := mirror[id := key], Touch(order, id);
      if p.hasPsram then kept == grown && rest == touched
      else kept == Kept(grown, touched, Excess(touched, MIRROR_CAP), protected) && rest == Trimmed(touched, MIRROR_CAP,
                                                                                                   protected)
  {
    TouchTracks(order, mirror, id, key);
    kept, rest := mirror[id := key], Touch(order, id);
    if !p.hasPsram {
      TracksCount(rest, kept);
      rest, kept := Trim(rest, kept, MIRROR_CAP, protected);
    }
  }

  /** A key not met before makes the mirror longer by one, up to the cap at least. */
  lemma NewSyncKeyFits(p: Platform, mirror: map<Bytes, SyncKey>, order: seq<Bytes>, latest: Option<Bytes>,
                       before: map<Bytes, Bytes>, id: Bytes, key: SyncKey)
    requires SyncMirror(p, mirror, order, latest, before) && id !in before
    ensures
      var touched, grown := Touch(order, id), mirror[id := key];
      && Tracks(touched, grown) && |touched| == |grown| == |mirror| + 1
      && forall protected :: |Trimmed(touched, MIRROR_CAP, protected)| >= Min(|mirror| + 1, MIRROR_CAP)
  {
    var touched := Touch(order, id);
    TouchTracks(order, mirror, id, key);
    TracksCount(touched, mirror[id := key]);
    UpdateCount(mirror, id, key);
    hide Touch, SyncEntries;
    forall protected
      ensures |Trimmed(touched, MIRROR_CAP, protected)| >= Min(|mirror| + 1, MIRROR_CAP)
    {
      TrimmedIsYoungest(touched, MIRROR_CAP, protected);
    }
  }

  /** One step of the sync-key replay: the leader is never the one evicted. */
  method ReplaySyncKey(p: Platform, mirror: map<Bytes, SyncKey>, order: seq<Bytes>, latest: Option<Bytes>,
                       ghost before: map<Bytes, Bytes>,
                       id: Bytes, key: SyncKey, ghost payload: Bytes)
    returns (kept: map<Bytes, SyncKey>, rest: seq<Bytes>, leader: Option<Bytes>)
    requires SyncMirror(p, mirror, order, latest, before) && BestSoFar(p, before, latest)
    requires id !in before && p.parseSyncKey(payload) == Some(key)
    ensures SyncMirror(p, kept, rest, leader, before[id := payload]) && BestSoFar(p, before[id := payload], leader)
    ensures |mirror| >= Min(|before|, MIRROR_CAP) ==> |kept| >= Min(|before| + 1, MIRROR_CAP)
  {
    NewSyncKeyFits(p, mirror, order, latest, before, id, key);
    LeadIsBest(p, mirror, order, latest, before, id, key, payload);
    leader := if TakesLead(mirror, latest, key) then Some(id) else latest;
    SyncMirrorAfterUse(p, mirror, order, latest, before, id, key, payload, leader);
    hide SyncEntries, Touch, Trimmed, Kept, BestSoFar;
    kept, rest := UseSyncKey(p, mirror, order, id, key, leader);
    SyncMirroredAreStored(p, kept, rest, leader, before[id := payload]);
    TracksCount(rest, kept);
  }

  /** Sync keys: the newest of the whole namespace is in the mirror, although the replay evicts as it goes. */
  method ReplaySyncKeys(p: Platform, entries: seq<Entry>, ghost stored: map<Bytes, Bytes>)
    returns (ok: bool, mirror: map<Bytes, SyncKey>, order: seq<Bytes>, latest: Option<Bytes>)
    requires Enumerates(entries, stored)
    ensures ok <==> AllPass(p, SyncKeys, stored)
    ensures ok ==> SyncMirror(p, mirror, order, latest, stored) && BestSoFar(p, stored, latest)
    ensures ok ==> |mirror| >= Min(|stored|, MIRROR_CAP)
  {
    mirror, order, latest := map[], [], None;
    hide Enumerates, AllPass, SyncMirror, PutFirst, PassFirst, BestSoFar;
    NothingPut(map[], entries);
    NothingReplayed(p, SyncKeys, entries, 0);
    NoneIsBest(p);
    for i := 0 to |entries|
      invariant SyncMirror(p, mirror, order, latest, PutFirst(map[], entries, i))
      invariant BestSoFar(p, PutFirst(map[], entries, i), latest) && |mirror| >= Min(i, MIRROR_CAP)
      invariant PassFirst(p, SyncKeys, entries, i)
    {
      hide Enumerates, AllPass, SyncMirror, PutFirst, PassFirst, BestSoFar;
      var key := p.parseSyncKey(entries[i].value);
      if key.None? {
        OneFails(p, SyncKeys, entries, stored, i);
        return false, mirror, order, latest;
      }
      OneMorePasses(p, SyncKeys, entries, i);
      KeyIsNew(entries, stored, i);
      SyncMirroredAreStored(p, mirror, order, latest, PutFirst(map[], entries, i));
      PutFirstCount(entries, stored, i);
      if entries[i].key in mirror {
        return false, mirror, order, latest;
      }
      PutOneMore(map[], entries, i);
      mirror, order, latest := ReplaySyncKey(p, mirror, order, latest, PutFirst(map[], entries, i), entries[i].key,
                                             key.value, entries[i].value);
    }
    AllPut(entries, stored);
    PassedAll(p, SyncKeys, entries, stored);
    AllMet(entries, stored, MIRROR_CAP);
    return true, mirror, order, latest;
  }

  lemma NoneIsBest(p: Platform)
    ensures BestSoFar(p, map[], None)
  {
  }

  lemma SyncMirroredAreStored(p: Platform, mirror: map<Bytes, SyncKey>, order: seq<Bytes>, latest: Option<Bytes>,
                              stored: map<Bytes, Bytes>)
    requires SyncMirror(p, mirror, order, latest, stored)
    ensures mirror.Keys <= stored.Keys && Tracks(order, mirror)
  {
  }
}
