/** What the `wa_store` partition may hold, and which contents the next boot accepts. */
module Images {
  import opened Prelude
  import opened RecordNames
  import opened Records

  /** The eight NVS namespaces of `wa_store`. */
  datatype Ns = Control | Linked | Identities | Sessions | Prekeys | SignedPrekeys | SenderKeys | SyncKeys

  /** The contents of the whole partition. */
  datatype Image = Image(control: Space, linked: Space, identities: Space, sessions: Space,
                         prekeys: Space, signedPrekeys: Space, senderKeys: Space, syncKeys: Space)
  {
    function Get(ns: Ns): Space {
      match ns
      case Control => control
      case Linked => linked
      case Identities => identities
      case Sessions => sessions
      case Prekeys => prekeys
      case SignedPrekeys => signedPrekeys
      case SenderKeys => senderKeys
      case SyncKeys => syncKeys
    }

    function Set(ns: Ns, space: Space): (img: Image)
      ensures forall n :: img.Get(n) == if n == ns then space else Get(n)
    {
      match ns
      case Control => this.(control := space)
      case Linked => this.(linked := space)
      case Identities => this.(identities := space)
      case Sessions => this.(sessions := space)
      case Prekeys => this.(prekeys := space)
      case SignedPrekeys => this.(signedPrekeys := space)
      case SenderKeys => this.(senderKeys := space)
      case SyncKeys => this.(syncKeys := space)
    }
  }

  datatype SyncKey = SyncKey(timestamp: int, body: Bytes)

  datatype Device = Device(body: Bytes)

  /** Everything the store takes from outside: hashing, text and JSON codecs, and the board it runs on. */
  datatype Platform = Platform(
    hash: Hash,
    isUtf8: Bytes -> bool,
    syncKeyJson: SyncKey -> Bytes,
    parseSyncKey: Bytes -> Option<SyncKey>,
    deviceJson: Device -> Bytes,
    parseDevice: Bytes -> Option<Device>,
    hasPsram: bool)
  {
    /** The one fact used about JSON: what was written can be read back. */
    ghost predicate JsonRoundTrips() {
      && (forall k: SyncKey :: parseSyncKey(syncKeyJson(k)) == Some(k))
      && (forall d: Device :: parseDevice(deviceJson(d)) == Some(d))
    }
  }

  const MAX_DEVICE_LEN := 64 * 1024
  const DEVICE_KEY: Bytes := [100, 101, 118, 105, 99, 101]
  const LATEST_KEY: Bytes := [108, 97, 116, 101, 115, 116, 115, 121, 110, 99]
  const RESET_MARK: Bytes := [49]

  const CURRENT: Name := "current"
  const LATEST: Name := "latestsync"
  const RESET: Name := "reset"

  /** The namespaces that hold Signal state, in the order they are erased. */
  const SIGNAL: seq<Ns> := [Identities, Sessions, Prekeys, SignedPrekeys, SenderKeys, SyncKeys]

  predicate IsSignal(ns: Ns) {
    ns != Control && ns != Linked
  }

  function MaxRecords(ns: Ns): nat {
    match ns
    case Prekeys => 256
    case SignedPrekeys => 16
    case SyncKeys => 256
    case _ => 2048
  }

  function MaxValue(ns: Ns): nat {
    if ns == Identities then 32 else MAX_RECORD_LEN
  }

  predicate KeyOk(p: Platform, ns: Ns, key: Bytes) {
    match ns
    case Identities | Sessions | SenderKeys => p.isUtf8(key)
    case Prekeys | SignedPrekeys => |key| == 4
    case _ => true
  }

  predicate ValueOk(p: Platform, ns: Ns, value: Bytes) {
    match ns
    case Identities => |value| == 32
    case SyncKeys => p.parseSyncKey(value).Some?
    case _ => true
  }

  ghost function Stored(p: Platform, img: Image, ns: Ns): map<Bytes, Bytes> {
    Contents(p.hash, img.Get(ns))
  }

  /** Count, size, name and format checks of the boot replay all pass. */
  ghost predicate Replayable(p: Platform, ns: Ns, space: Space) {
    && |space| <= MaxRecords(ns)
    && WellFormed(p.hash, space, MaxValue(ns))
    && forall k :: k in Contents(p.hash, space) ==> KeyOk(p, ns, k) && ValueOk(p, ns, Contents(p.hash, space)[k])
  }

  ghost predicate SignalReplayable(p: Platform, img: Image) {
    forall ns :: IsSignal(ns) ==> Replayable(p, ns, img.Get(ns))
  }

  /** What reading a blob under a size limit yields when the medium does not fail. */
  function ReadOf(space: Space, name: Name, maxLen: nat): Result<Option<Bytes>> {
    if name !in space then Ok(None)
    else if |space[name]| > maxLen then Err(Invalid)
    else Ok(Some(space[name]))
  }

  function LoadedDevice(p: Platform, linked: Space): Result<Option<Device>> {
    var read :- ReadOf(linked, CURRENT, HEADER_LEN + |DEVICE_KEY| + MAX_DEVICE_LEN);
    if read.None? then Ok(None)
    else
      var entry :- DecodeRecord(read.value);
      if entry.key != DEVICE_KEY then Err(Invalid)
      else
        var device := p.parseDevice(entry.value);
        if device.None? then Err(Invalid) else Ok(device)
  }

  function LoadedMarker(control: Space): Result<Option<Bytes>> {
    var read :- ReadOf(control, LATEST, HEADER_LEN + |LATEST_KEY| + MAX_KEY_LEN);
    if read.None? then Ok(None)
    else
      var entry :- DecodeRecord(read.value);
      if entry.key != LATEST_KEY then Err(Invalid) else Ok(Some(entry.value))
  }

  /** A blob that is one record of this key and value. */
  ghost predicate Filed(space: Space, name: Name, key: Bytes, value: Bytes) {
    name in space && exists low, high :: LaidOut(space[name], low, high, key, value)
  }

  lemma FiledIff(space: Space, name: Name, key: Bytes, value: Bytes)
    ensures Filed(space, name, key, value) <==> name in space && DecodeRecord(space[name]) == Ok(Entry(key, value))
    ensures Filed(space, name, key, value) ==> |space[name]| == HEADER_LEN + |key| + |value|
  {
    if name in space {
      RecordBytes(space[name], key, value);
    }
    hide DecodeRecord;
  }

  /**
   * When a boot finds a linked device: its record is the one under `current`, carries the key `device`, is within the
   * size limit and parses. No blob there means no device; everything else fails the boot.
   */
  lemma LoadedDeviceIff(p: Platform, linked: Space, device: Device)
    ensures LoadedDevice(p, linked) == Ok(None) <==> "current" !in linked
    ensures LoadedDevice(p, linked) == Ok(Some(device)) <==> exists payload :: HoldsDevice(p, linked, payload, device)
  {
    hide DecodeRecord, Filed;
    if LoadedDevice(p, linked) == Ok(Some(device)) {
      var payload := DecodeRecord(linked["current"]).value.value;
      FiledIff(linked, "current", DEVICE_KEY, payload);
      assert HoldsDevice(p, linked, payload, device);
    }
    if payload :| HoldsDevice(p, linked, payload, device) {
      FiledIff(linked, "current", DEVICE_KEY, payload);
    }
  }

  ghost predicate HoldsDevice(p: Platform, linked: Space, payload: Bytes, device: Device) {
    && Filed(linked, "current", DEVICE_KEY, payload) && |payload| <= MAX_DEVICE_LEN
    && p.parseDevice(payload) == Some(device)
  }

  /** The same for the marker of the latest sync key, whose value is the id. */
  lemma LoadedMarkerIff(control: Space, id: Bytes)
    ensures LoadedMarker(control) == Ok(None) <==> "latestsync" !in control
    ensures LoadedMarker(control) == Ok(Some(id)) <==>
              Filed(control, "latestsync", LATEST_KEY, id) && |id| <= MAX_KEY_LEN
  {
    FiledIff(control, "latestsync", LATEST_KEY, id);
    hide DecodeRecord, Filed;
  }

  predicate ResetPending(control: Space) {
    RESET in control
  }

  predicate ResetMarkReadable(control: Space) {
    ReadOf(control, RESET, 1).Ok?
  }

  /** The contents the next boot accepts, provided the medium does not fail. */
  ghost predicate Reopenable(p: Platform, img: Image) {
    && ResetMarkReadable(img.Get(Control))
    && (ResetPending(img.Get(Control))
        || (&& LoadedDevice(p, img.Get(Linked)).Ok?
            && (LoadedDevice(p, img.Get(Linked)).value.Some? ==> SignalReplayable(p, img))))
  }

  /** The contents a running store keeps. */
  ghost predicate Fit(p: Platform, img: Image) {
    ResetMarkReadable(img.Get(Control)) && LoadedDevice(p, img.Get(Linked)).Ok? && SignalReplayable(p, img)
  }

  lemma FitIsReopenable(p: Platform, img: Image)
    requires Fit(p, img)
    ensures Reopenable(p, img)
  {
  }

  /** A record the replay accepts, byte by byte. */
  ghost predicate Replays(p: Platform, ns: Ns, space: Space, name: Name, key: Bytes, value: Bytes) {
    && Filed(space, name, key, value) && name == KeyName(p.hash, key) && |value| <= MaxValue(ns)
    && KeyOk(p, ns, key) && ValueOk(p, ns, value)
  }

  lemma RecordReplays(p: Platform, ns: Ns, space: Space, name: Name)
    requires Replayable(p, ns, space) && name in space
    ensures
      var entry := DecodeRecord(space[name]).value;
      DecodeRecord(space[name]).Ok? && Replays(p, ns, space, name, entry.key, entry.value)
  {
    hide NameOf, KeyOk, ValueOk, DecodeRecord;
    assert WellFiled(p.hash, name, space[name], MaxValue(ns));
    var entry := DecodeRecord(space[name]).value;
    FiledIff(space, name, entry.key, entry.value);
    hide Filed;
    assert Holds(p.hash, space, entry.key) && Found(p.hash, space, entry.key) == entry.value;
    assert entry.key in Contents(p.hash, space) && Contents(p.hash, space)[entry.key] == entry.value;
  }

  lemma ReplayingRecord(p: Platform, ns: Ns, space: Space, name: Name, key: Bytes, value: Bytes)
    requires Replays(p, ns, space, name, key, value)
    ensures name in space && DecodeRecord(space[name]) == Ok(Entry(key, value))
    ensures WellFiled(p.hash, name, space[name], MaxValue(ns)) && KeyOk(p, ns, key) && ValueOk(p, ns, value)
  {
    FiledIff(space, name, key, value);
    hide DecodeRecord, Filed, NameOf;
  }

  ghost predicate EachReplays(p: Platform, ns: Ns, space: Space) {
    forall name :: name in space ==> exists key, value :: Replays(p, ns, space, name, key, value)
  }

  lemma EachReplaysWell(p: Platform, ns: Ns, space: Space)
    requires EachReplays(p, ns, space) && |space| <= MaxRecords(ns)
    ensures Replayable(p, ns, space)
  {
    hide DecodeRecord, NameOf, KeyOk, ValueOk, Replays;
    forall name | name in space
      ensures WellFiled(p.hash, name, space[name], MaxValue(ns))
    {
      var key, value :| Replays(p, ns, space, name, key, value);
      ReplayingRecord(p, ns, space, name, key, value);
    }
    forall k | k in Contents(p.hash, space)
      ensures KeyOk(p, ns, k) && ValueOk(p, ns, Contents(p.hash, space)[k])
    {
      var name := KeyName(p.hash, k);
      var key, value :| Replays(p, ns, space, name, key, value);
      ReplayingRecord(p, ns, space, name, key, value);
    }
  }

  /** A namespace can be replayed exactly when it is not too full and each of its records is one of these. */
  lemma ReplayableIff(p: Platform, ns: Ns, space: Space)
    ensures Replayable(p, ns, space) <==> |space| <= MaxRecords(ns) && EachReplays(p, ns, space)
  {
    if Replayable(p, ns, space) {
      forall name | name in space
        ensures exists key, value :: Replays(p, ns, space, name, key, value)
      {
        RecordReplays(p, ns, space, name);
      }
    } else if |space| <= MaxRecords(ns) && EachReplays(p, ns, space) {
      EachReplaysWell(p, ns, space);
    }
    hide *;
  }

  /** Erasing records never breaks the replay of the rest. */
  lemma SubMapReplayable(p: Platform, ns: Ns, part: Space, whole: Space)
    requires Replayable(p, ns, whole) && SubMap(part, whole)
    ensures Replayable(p, ns, part)
  {
    CardinalitySubset(part.Keys, whole.Keys);
    hide DecodeRecord;
    forall k | k in Contents(p.hash, part)
      ensures k in Contents(p.hash, whole) && Contents(p.hash, whole)[k] == Contents(p.hash, part)[k]
    {
      assert Holds(p.hash, whole, k);
    }
  }

  /** The verdict of the slot check against the flash itself: a name to write under, or a refusal. */
  function SlotVerdict(p: Platform, img: Image, ns: Ns, key: Bytes, valueLen: nat, maxEntries: nat): Result<Name> {
    if valueLen > MAX_RECORD_LEN || |key| > MAX_KEY_LEN then Err(Invalid)
    else
      var name := KeyName(p.hash, key);
      var existing :- ReadOf(img.Get(ns), name, HEADER_LEN + MAX_KEY_LEN + MAX_RECORD_LEN);
      if existing.Some? then
        var entry :- DecodeRecord(existing.value);
        if entry.key != key then Err(Invalid) else Ok(name)
      else if |img.Get(ns)| >= maxEntries then Err(Invalid)
      else Ok(name)
  }

  function Write(img: Image, ns: Ns, name: Name, blob: Bytes): Image {
    img.Set(ns, img.Get(ns)[name := blob])
  }

  function Drop(img: Image, ns: Ns, name: Name): Image {
    img.Set(ns, img.Get(ns) - {name})
  }

  function Put(p: Platform, img: Image, ns: Ns, key: Bytes, value: Bytes): Image
    requires |key| <= MAX_KEY_LEN
  {
    Write(img, ns, KeyName(p.hash, key), EncodeRecord(key, value).value)
  }

  lemma PutReplayable(p: Platform, ns: Ns, space: Space, key: Bytes, value: Bytes)
    requires Replayable(p, ns, space) && |key| <= MAX_KEY_LEN && |value| <= MaxValue(ns)
    requires KeyOk(p, ns, key) && ValueOk(p, ns, value)
    requires if KeyName(p.hash, key) in space then Holds(p.hash, space, key) else |space| < MaxRecords(ns)
    ensures
      var next := space[KeyName(p.hash, key) := EncodeRecord(key, value).value];
      Replayable(p, ns, next) && Contents(p.hash, next) == Contents(p.hash, space)[key := value]
  {
    PutContents(p.hash, space, MaxValue(ns), key, value);
    UpdateCount(space, KeyName(p.hash, key), EncodeRecord(key, value).value);
    hide NameOf, DecodeRecord, EncodeRecord, Contents, KeyOk, ValueOk, WellFormed, Holds;
  }

  /** An accepted slot is either held by this very key or free with room to spare. */
  lemma AcceptedSlot(p: Platform, img: Image, ns: Ns, key: Bytes, valueLen: nat, maxEntries: nat)
    requires SlotVerdict(p, img, ns, key, valueLen, maxEntries).Ok?
    ensures
      && SlotVerdict(p, img, ns, key, valueLen, maxEntries).value == KeyName(p.hash, key)
      && |key| <= MAX_KEY_LEN && valueLen <= MAX_RECORD_LEN
      && if KeyName(p.hash, key) in img.Get(ns) then Holds(p.hash, img.Get(ns), key) else |img.Get(ns)| < maxEntries
  {
  }

  /** A record can be filed if it is small enough and replaces its own key's, or finds its name free and room left. */
  ghost predicate StorableWithin(p: Platform, img: Image, ns: Ns, key: Bytes, valueLen: nat, maxEntries: nat) {
    && valueLen <= MAX_RECORD_LEN && |key| <= MAX_KEY_LEN
    && (|| key in Stored(p, img, ns)
        || (KeyName(p.hash, key) !in img.Get(ns) && |Stored(p, img, ns)| < maxEntries))
  }

  ghost predicate Storable(p: Platform, img: Image, ns: Ns, key: Bytes, valueLen: nat) {
    StorableWithin(p, img, ns, key, valueLen, MaxRecords(ns))
  }

  /** The slot check accepts exactly what can be filed, and always under the key's own name. */
  lemma SlotVerdictIff(p: Platform, img: Image, ns: Ns, key: Bytes, valueLen: nat, maxEntries: nat)
    requires Fit(p, img) && IsSignal(ns)
    ensures
      SlotVerdict(p, img, ns, key, valueLen, maxEntries)
      == if StorableWithin(p, img, ns, key, valueLen, maxEntries) then Ok(KeyName(p.hash, key)) else Err(Invalid)
  {
    var name, space := KeyName(p.hash, key), img.Get(ns);
    if name in space {
      TakenName(p, img, ns, key);
    } else {
      FreeName(p, img, ns, key);
    }
    hide KeyName, Fit, Contents, DecodeRecord;
  }

  /** A record found under a key's name can be read, and is that key's or keeps it out. */
  lemma TakenName(p: Platform, img: Image, ns: Ns, key: Bytes)
    requires Fit(p, img) && IsSignal(ns) && KeyName(p.hash, key) in img.Get(ns)
    ensures
      var record := img.Get(ns)[KeyName(p.hash, key)];
      && |record| <= HEADER_LEN + MAX_KEY_LEN + MAX_RECORD_LEN && DecodeRecord(record).Ok?
      && (key in Stored(p, img, ns) <==> DecodeRecord(record).value.key == key)
  {
    hide NameOf;
    var name, space := KeyName(p.hash, key), img.Get(ns);
    assert Replayable(p, ns, space);
    assert WellFiled(p.hash, name, space[name], MaxValue(ns));
    EncodeDecode(space[name]);
  }

  lemma FreeName(p: Platform, img: Image, ns: Ns, key: Bytes)
    requires Fit(p, img) && IsSignal(ns) && KeyName(p.hash, key) !in img.Get(ns)
    ensures key !in Stored(p, img, ns) && |Stored(p, img, ns)| == |img.Get(ns)|
  {
    assert Replayable(p, ns, img.Get(ns));
    CountsAgree(p.hash, img.Get(ns), MaxValue(ns));
    hide NameOf, DecodeRecord;
  }

  lemma SetKeepsFit(p: Platform, img: Image, ns: Ns, space: Space)
    requires Fit(p, img) && IsSignal(ns) && Replayable(p, ns, space)
    ensures Fit(p, img.Set(ns, space))
  {
    hide Replayable, LoadedDevice, ResetMarkReadable, Image.Get, Image.Set;
  }

  /** A put that passed the slot check changes one logical key and keeps the store reopenable. */
  lemma PutKeepsFit(p: Platform, img: Image, ns: Ns, key: Bytes, value: Bytes)
    requires Fit(p, img) && IsSignal(ns)
    requires KeyOk(p, ns, key) && ValueOk(p, ns, value)
    requires SlotVerdict(p, img, ns, key, |value|, MaxRecords(ns)).Ok?
    ensures
      var next := Put(p, img, ns, key, value);
      && Fit(p, next)
      && Stored(p, next, ns) == Stored(p, img, ns)[key := value]
      && (forall other :: other != ns ==> next.Get(other) == img.Get(other))
  {
    AcceptedSlot(p, img, ns, key, |value|, MaxRecords(ns));
    hide SlotVerdict, NameOf, DecodeRecord, EncodeRecord, Contents, Holds, Image.Get, Image.Set, Replayable;
    assert Replayable(p, ns, img.Get(ns));
    PutReplayable(p, ns, img.Get(ns), key, value);
    SetKeepsFit(p, img, ns, Put(p, img, ns, key, value).Get(ns));
    hide Fit;
  }

  lemma DeleteKeepsFit(p: Platform, img: Image, ns: Ns, key: Bytes)
    requires Fit(p, img) && IsSignal(ns)
    requires key in Stored(p, img, ns)
    ensures
      var next := Drop(img, ns, KeyName(p.hash, key));
      && Fit(p, next)
      && Stored(p, next, ns) == Stored(p, img, ns) - {key}
      && (forall other :: other != ns ==> next.Get(other) == img.Get(other))
  {
    var next := Drop(img, ns, KeyName(p.hash, key));
    DeleteContents(p.hash, img.Get(ns), MaxValue(ns), key);
    SubMapReplayable(p, ns, next.Get(ns), img.Get(ns));
    hide NameOf, DecodeRecord, Contents, Replayable, Image.Get, Image.Set;
    SetKeepsFit(p, img, ns, next.Get(ns));
    hide Fit;
  }
}
