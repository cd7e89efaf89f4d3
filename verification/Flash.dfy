/** The durable record namespaces: slot checks, puts, deletes, erasure and the reset marker. */
module FlashRecords {
  import opened Prelude
  import opened RecordNames
  import opened Records
  import opened Images
  import opened SessionSlot
  import opened NvsPartition

  /** Every cached slot still names a flash record carrying that very key. */
  ghost predicate SlotsSound(hash: Hash, slots: seq<Slot>, sessions: Space) {
    forall s :: s in slots ==> s.name == KeyName(hash, s.key) && s.key in Contents(hash, sessions)
  }

  /** Some records gone, and possibly the latest-sync marker; nothing added or changed. */
  ghost predicate Shrunk(before: Image, after: Image) {
    && (after.control == before.control || after.control == before.control - {LATEST})
    && forall ns :: ns != Control ==> SubMap(after.Get(ns), before.Get(ns))
  }

  ghost function SignalErased(img: Image): Image {
    Image(img.control - {LATEST}, img.linked, map[], map[], map[], map[], map[], map[])
  }

  /** The partition after a factory reset. */
  ghost function Blank(img: Image): Image {
    Image(img.control - {LATEST} - {RESET}, map[], map[], map[], map[], map[], map[], map[])
  }

  lemma ShrunkTransitive(a: Image, b: Image, c: Image)
    requires Shrunk(a, b) && Shrunk(b, c)
    ensures Shrunk(a, c)
  {
    forall ns | ns != Control ensures SubMap(c.Get(ns), a.Get(ns)) {
      assert SubMap(b.Get(ns), a.Get(ns)) && SubMap(c.Get(ns), b.Get(ns));
    }
  }

  lemma PartlyErasedShrinks(whole: Image, ns: Ns, part: Image)
    requires PartlyErased(whole, ns, part) && ns != Control
    ensures Shrunk(whole, part)
  {
    assert forall other | other != ns :: part.Get(other) == whole.Get(other);
    assert part.Get(Control) == whole.Get(Control);
  }

  lemma SubMapDevice(p: Platform, before: Space, after: Space)
    requires LoadedDevice(p, before).Ok? && SubMap(after, before)
    ensures LoadedDevice(p, after).Ok?
  {
  }

  /** A running store stays fit while its records disappear. */
  lemma ShrunkFit(p: Platform, before: Image, after: Image)
    requires Fit(p, before) && Shrunk(before, after)
    ensures Fit(p, after)
  {
    assert after.Get(Linked) == after.linked && before.Get(Linked) == before.linked;
    SubMapDevice(p, before.linked, after.linked);
    assert RESET != LATEST;
    forall ns | IsSignal(ns) ensures Replayable(p, ns, after.Get(ns)) {
      SubMapReplayable(p, ns, after.Get(ns), before.Get(ns));
    }
  }

  lemma SignalListed()
    ensures forall ns :: IsSignal(ns) ==> exists i :: 0 <= i < |SIGNAL| && SIGNAL[i] == ns
    ensures forall i :: 0 <= i < |SIGNAL| ==> IsSignal(SIGNAL[i])
  {
    assert SIGNAL[0] == Identities && SIGNAL[1] == Sessions && SIGNAL[2] == Prekeys;
    assert SIGNAL[3] == SignedPrekeys && SIGNAL[4] == SenderKeys && SIGNAL[5] == SyncKeys;
  }

  /** The reset marker is committed and readable, whatever else is left. */
  ghost predicate MidReset(img: Image) {
    ResetPending(img.control) && ResetMarkReadable(img.control)
  }

  /** A moment of the reset of `before`: what is left will end up as the same blank store. */
  ghost predicate Resetting(before: Image, img: Image) {
    MidReset(img) && Blank(img) == Blank(before)
  }

  /** What a power loss during a reset of `before` can leave on flash. */
  ghost predicate ResetMoment(before: Image, img: Image) {
    img == before || Resetting(before, img) || img == Blank(before)
  }

  /** A reset taken up again where a power loss or a failure left it is still the same reset. */
  lemma ResetMomentTransitive(a: Image, b: Image, c: Image)
    requires ResetMoment(a, b) && ResetMoment(b, c)
    ensures ResetMoment(a, c)
  {
    assert Blank(Blank(a)) == Blank(a);
  }

  /** Everything a reset leaves behind on its way, and where it ends, is a moment of it. */
  lemma MomentsOfReset(before: Image, after: Image, trail: seq<Image>, from: nat)
    requires after == before || after == Blank(before) || (MidReset(after) && Shrunk(Marked(before), after))
    requires forall i :: from <= i < |trail| ==> Resetting(before, trail[i]) || trail[i] == Blank(before)
    ensures ResetMoment(before, after)
    ensures forall i :: from <= i < |trail| ==> ResetMoment(before, trail[i])
  {
    assert Marked(before).control - {LATEST} - {RESET} == before.control - {LATEST} - {RESET};
    assert RESET != LATEST;
    hide ResetMarkReadable;
  }

  lemma MidResetIsPending(img: Image)
    ensures MidReset(img) ==> ResetPending(img.Get(Control))
  {
  }

  lemma BlankNotPending(img: Image)
    ensures !ResetPending(Blank(img).Get(Control))
  {
  }

  /** Signal records are disappearing; the linked device is not touched. */
  ghost predicate LosingSignal(before: Image, after: Image) {
    Shrunk(before, after) && after.linked == before.linked
  }

  /** The first write of a reset. */
  ghost function Marked(img: Image): Image {
    Write(img, Control, RESET, RESET_MARK)
  }

  /** `id` recorded as the latest sync key. */
  ghost function WithLatest(img: Image, id: Bytes): Image
    requires |id| <= MAX_KEY_LEN
  {
    Write(img, Control, LATEST, EncodeRecord(LATEST_KEY, id).value)
  }

  lemma MarkedIsFit(p: Platform, img: Image)
    requires Fit(p, img)
    ensures Fit(p, Marked(img)) && MidReset(Marked(img))
  {
    assert forall ns | ns != Control :: Marked(img).Get(ns) == img.Get(ns);
    assert Marked(img).Get(Control) == Marked(img).control;
    hide Replayable, LoadedDevice;
  }

  /** Every moment of a reset, failed or not, can be reopened; a store that was fit stays fit. */
  lemma ResetMomentsReopen(p: Platform, before: Image, trail: seq<Image>, from: nat)
    requires from <= |trail| && AllReopenable(p, trail[..from])
    requires forall i :: from <= i < |trail| ==> Resetting(before, trail[i]) || trail[i] == Blank(before)
    ensures AllReopenable(p, trail)
  {
    BlankIsFit(p, before);
    FitIsReopenable(p, Blank(before));
    forall i | 0 <= i < |trail| ensures Reopenable(p, trail[i]) {
      if i < from {
        assert trail[i] == trail[..from][i];
      } else {
        assert trail[i].Get(Control) == trail[i].control;
      }
    }
  }

  lemma EmptyIsReplayable(p: Platform, ns: Ns)
    ensures Replayable(p, ns, map[])
  {
  }

  lemma BlankIsFit(p: Platform, img: Image)
    ensures Fit(p, Blank(img)) && LoadedDevice(p, Blank(img).linked) == Ok(None)
  {
    forall ns | IsSignal(ns) ensures Replayable(p, ns, Blank(img).Get(ns)) {
      EmptyIsReplayable(p, ns);
    }
  }

  lemma BlankHoldsNothing(img: Image)
    ensures Blank(img).Get(Linked) == Blank(img).linked && forall ns :: ns != Control ==> Blank(img).Get(ns) == map[]
  {
  }

  lemma ShrinkingStaysMidReset(before: Image, after: Image)
    requires MidReset(before) && Shrunk(before, after)
    ensures Resetting(before, after)
  {
    assert RESET != LATEST;
    assert after.control - {LATEST} - {RESET} == before.control - {LATEST} - {RESET};
  }

  lemma LosingSignalFurther(before: Image, middle: Image, ns: Ns, after: Image)
    requires LosingSignal(before, middle) && PartlyErased(middle, ns, after) && IsSignal(ns)
    ensures LosingSignal(before, after)
  {
    PartlyErasedShrinks(middle, ns, after);
    ShrunkTransitive(before, middle, after);
    assert after.Get(Linked) == middle.Get(Linked);
  }

  lemma NothingLost(img: Image)
    ensures LosingSignal(img, img)
  {
  }

  lemma MarkerDropped(before: Image)
    ensures LosingSignal(before, Drop(before, Control, LATEST))
  {
    assert forall ns | ns != Control :: Drop(before, Control, LATEST).Get(ns) == before.Get(ns);
  }

  lemma LosingMore(a: Image, b: Image, c: Image)
    requires LosingSignal(a, b) && LosingSignal(b, c)
    ensures LosingSignal(a, c)
  {
    ShrunkTransitive(a, b, c);
  }

  lemma AllSignalErased(before: Image, after: Image)
    requires forall ns :: after.Get(ns) == if IsSignal(ns) then map[] else Drop(before, Control, LATEST).Get(ns)
    ensures after == SignalErased(before)
  {
    assert after.Get(Control) == before.control - {LATEST} && after.Get(Linked) == before.linked;
    assert after.Get(Identities) == after.Get(Sessions) == after.Get(Prekeys) == map[];
    assert after.Get(SignedPrekeys) == after.Get(SenderKeys) == after.Get(SyncKeys) == map[];
  }

  lemma SlotsSurvivePut(p: Platform, slots: seq<Slot>, before: Image, after: Image, ns: Ns)
    requires SlotsSound(p.hash, slots, before.Get(Sessions))
    requires if ns == Sessions then Stored(p, before, ns).Keys <= Stored(p, after, ns).Keys
             else after.Get(Sessions) == before.Get(Sessions)
    ensures SlotsSound(p.hash, slots, after.Get(Sessions))
  {
  }

  /** A cached slot answers exactly what reading the flash would. */
  lemma CachedVerdict(p: Platform, img: Image, slots: seq<Slot>, key: Bytes, valueLen: nat, maxEntries: nat)
    requires Fit(p, img) && SlotsSound(p.hash, slots, img.Get(Sessions))
    requires valueLen <= MAX_RECORD_LEN && |key| <= MAX_KEY_LEN
    requires KeyAt(slots, KeyName(p.hash, key)).Some?
    ensures
      SlotVerdict(p, img, Sessions, key, valueLen, maxEntries)
      == if KeyAt(slots, KeyName(p.hash, key)).value == key then Ok(KeyName(p.hash, key)) else Err(Invalid)
  {
    hide NameOf;
    var name := KeyName(p.hash, key);
    var i :| 0 <= i < |slots| && slots[i].name == name && slots[i].key == KeyAt(slots, name).value;
    assert slots[i] in slots;
    var space := img.Get(Sessions);
    assert Holds(p.hash, space, slots[i].key) && Replayable(p, Sessions, space);
    assert WellFiled(p.hash, name, space[name], MaxValue(Sessions));
    EncodeDecode(space[name]);
  }

  /** Reading by logical key finds what the namespace, as a plain map, holds under it. */
  lemma LookupByName(p: Platform, img: Image, ns: Ns, key: Bytes)
    requires Fit(p, img) && IsSignal(ns)
    ensures
      var name, space := KeyName(p.hash, key), img.Get(ns);
      && (name !in space ==> key !in Stored(p, img, ns))
      && (name in space ==>
            && DecodeRecord(space[name]).Ok?
            && |space[name]| <= HEADER_LEN + MAX_KEY_LEN + MaxValue(ns)
            && |DecodeRecord(space[name]).value.value| <= MaxValue(ns)
            && (key in Stored(p, img, ns) <==> DecodeRecord(space[name]).value.key == key)
            && (key in Stored(p, img, ns) ==> Stored(p, img, ns)[key] == DecodeRecord(space[name]).value.value))
  {
    hide NameOf;
    var name, space := KeyName(p.hash, key), img.Get(ns);
    assert Replayable(p, ns, space);
    if name in space {
      assert WellFiled(p.hash, name, space[name], MaxValue(ns));
      EncodeDecode(space[name]);
    }
  }

  ghost predicate AllReopenable(p: Platform, trail: seq<Image>) {
    forall i :: 0 <= i < |trail| ==> Reopenable(p, trail[i])
  }

  lemma StillReopenable(p: Platform, trail: seq<Image>, img: Image)
    requires AllReopenable(p, trail) && Fit(p, img)
    ensures AllReopenable(p, trail + [img])
  {
    FitIsReopenable(p, img);
  }

  lemma StorableIs(p: Platform, img: Image, ns: Ns, key: Bytes, valueLen: nat)
    ensures Storable(p, img, ns, key, valueLen) <==> StorableWithin(p, img, ns, key, valueLen, MaxRecords(ns))
    ensures Storable(p, img, ns, key, valueLen) ==> |key| <= MAX_KEY_LEN
  {
  }

  lemma SameStorable(p: Platform, a: Image, b: Image, ns: Ns, key: Bytes, valueLen: nat)
    requires a.Get(ns) == b.Get(ns)
    ensures Storable(p, a, ns, key, valueLen) == Storable(p, b, ns, key, valueLen)
  {
  }

  lemma SameStored(p: Platform, a: Image, b: Image, ns: Ns)
    requires a.Get(ns) == b.Get(ns)
    ensures Stored(p, a, ns) == Stored(p, b, ns)
  {
  }

  lemma ControlIsGet(img: Image)
    ensures img.Get(Control) == img.control
  {
  }

  lemma RecordAt(p: Platform, img: Image, ns: Ns, name: Name)
    requires Fit(p, img) && IsSignal(ns) && name in img.Get(ns)
    ensures
      var record := img.Get(ns)[name];
      && |record| <= HEADER_LEN + MAX_KEY_LEN + MaxValue(ns)
      && DecodeRecord(record).Ok?
      && DecodeRecord(record).value.key in Stored(p, img, ns)
      && KeyOk(p, ns, DecodeRecord(record).value.key)
  {
    hide NameOf;
    assert Replayable(p, ns, img.Get(ns));
    assert WellFiled(p.hash, name, img.Get(ns)[name], MaxValue(ns));
    EncodeDecode(img.Get(ns)[name]);
    hide DecodeRecord;
    assert Holds(p.hash, img.Get(ns), DecodeRecord(img.Get(ns)[name]).value.key);
  }

  lemma StoredUnderName(p: Platform, img: Image, ns: Ns, key: Bytes)
    requires key in Stored(p, img, ns)
    ensures KeyName(p.hash, key) in img.Get(ns)
    ensures DecodeRecord(img.Get(ns)[KeyName(p.hash, key)]).Ok?
    ensures DecodeRecord(img.Get(ns)[KeyName(p.hash, key)]).value == Entry(key, Stored(p, img, ns)[key])
  {
    hide NameOf, DecodeRecord;
    assert Holds(p.hash, img.Get(ns), key);
  }

  class FlashNamespaces {
    const p: Platform
    const nvs: Nvs
    const slots: SessionSlots

    ghost predicate Valid()
      reads this, nvs, slots
    {
      nvs.Valid() && slots.Valid() && SlotsSound(p.hash, slots.slots, nvs.image.Get(Sessions))
    }

    /** What a running store keeps: fit contents, and no moment at which a power loss would strand it. */
    ghost predicate Durable()
      reads this, nvs, slots
    {
      Valid() && Fit(p, nvs.image) && AllReopenable(p, nvs.trail)
    }

    constructor (p: Platform, nvs: Nvs)
      requires nvs.Valid()
      ensures this.p == p && this.nvs == nvs && fresh(slots) && Valid()
    {
      this.p := p;
      this.nvs := nvs;
      this.slots := new SessionSlots();
    }

    method RememberSessionSlot(ns: Ns, name: Name, key: Bytes)
      requires Valid()
      requires ns == Sessions ==> name == KeyName(p.hash, key) && key in Stored(p, nvs.image, Sessions)
      modifies slots
      ensures Valid()
      ensures slots.slots == if ns == Sessions then Remembered(old(slots.slots), name, key) else old(slots.slots)
    {
      if ns != Sessions {
        return;
      }
      RememberedOnlyForgets(slots.slots, name, key);
      slots.Remember(name, key);
    }

    /** A miss and a foreign record under the same name both read as absent. */
    method LoadRecord(ns: Ns, key: Bytes) returns (r: Result<Option<Bytes>>)
      requires Valid() && Fit(p, nvs.image) && IsSignal(ns)
      modifies nvs`faults, slots
      ensures Valid()
      ensures r.Ok? ==> r.value == Lookup(Stored(p, nvs.image, ns), key) && nvs.faults == old(nvs.faults)
      ensures r.Err? ==> nvs.faults > old(nvs.faults)
      ensures slots.slots == if ns == Sessions && r.Ok? && r.value.Some?
                             then Remembered(old(slots.slots), KeyName(p.hash, key), key)
                             else old(slots.slots)
    {
      LookupByName(p, nvs.image, ns, key);
      hide NameOf, DecodeRecord, Contents, SlotVerdict, Image.Get;
      var name := RecordName(p.hash(key));
      var read := nvs.ReadBlob(ns, name, HEADER_LEN + MAX_KEY_LEN + MaxValue(ns));
      if read.Err? {
        return Err(read.error);
      }
      if read.value.None? {
        return Ok(None);
      }
      var entry := DecodeRecord(read.value.value);
      if entry.Err? {
        return Err(Invalid);
      }
      if entry.value.key != key {
        return Ok(None);
      }
      if |entry.value.value| > MaxValue(ns) {
        return Err(Invalid);
      }
      RememberSessionSlot(ns, name, key);
      return Ok(Some(entry.value.value));
    }

    /** The verdict is the one the flash itself gives; only an answer found in the cache spares the read. */
    method CheckRecordSlot(ns: Ns, key: Bytes, valueLen: nat, maxEntries: nat) returns (r: Result<Name>)
      requires Durable() && IsSignal(ns)
      modifies nvs`faults, slots
      ensures Durable()
      ensures || (r == Err(Io) && nvs.faults > old(nvs.faults))
              || (&& nvs.faults == old(nvs.faults)
                  && r == if StorableWithin(p, nvs.image, ns, key, valueLen, maxEntries)
                          then Ok(KeyName(p.hash, key)) else Err(Invalid))
      ensures slots.slots == if ns == Sessions && r.Ok? && KeyAt(old(slots.slots), r.value).None?
                                && key in Stored(p, nvs.image, ns)
                             then Remembered(old(slots.slots), r.value, key) else old(slots.slots)
    {
      SlotVerdictIff(p, nvs.image, ns, key, valueLen, maxEntries);
      hide AllReopenable, StorableWithin;
      if valueLen > MAX_RECORD_LEN {
        return Err(Invalid);
      }
      if |key| > MAX_KEY_LEN {
        return Err(Invalid);
      }
      var name := RecordName(p.hash(key));
      if ns == Sessions {
        var cached := slots.Matches(name, key);
        if cached.Some? {
          CachedVerdict(p, nvs.image, slots.slots, key, valueLen, maxEntries);
          return if cached.value then Ok(name) else Err(Invalid);
        }
      }
      hide NameOf, Image.Get;
      LookupByName(p, nvs.image, ns, key);
      var read := nvs.ReadBlob(ns, name, HEADER_LEN + MAX_KEY_LEN + MAX_RECORD_LEN);
      if read.Err? {
        return Err(read.error);
      }
      if read.value.Some? {
        var entry := DecodeRecord(read.value.value);
        if entry.Err? {
          return Err(Invalid);
        }
        if entry.value.key != key {
          return Err(Invalid);
        }
        RememberSessionSlot(ns, name, key);
      } else {
        var count := nvs.RecordCount(ns);
        if count.Err? {
          return Err(count.error);
        }
        if count.value >= maxEntries {
          return Err(Invalid);
        }
      }
      return Ok(name);
    }

    /** Commits a record under the name its slot check gave. */
    method FileRecord(ns: Ns, name: Name, key: Bytes, value: Bytes) returns (r: Result<()>)
      requires Durable() && IsSignal(ns) && KeyOk(p, ns, key) && ValueOk(p, ns, value)
      requires Storable(p, nvs.image, ns, key, |value|) && name == KeyName(p.hash, key)
      modifies nvs
      ensures Durable() && nvs.faults >= old(nvs.faults)
      ensures r.Ok? ==>
                && |key| <= MAX_KEY_LEN && nvs.image == Put(p, old(nvs.image), ns, key, value)
                && nvs.trail == old(nvs.trail) + [nvs.image]
      ensures r.Ok? ==> Stored(p, nvs.image, ns) == old(Stored(p, nvs.image, ns))[key := value]
      ensures r.Ok? ==> forall other :: other != ns ==> nvs.image.Get(other) == old(nvs.image).Get(other)
      ensures r.Err? ==> nvs.image == old(nvs.image) && nvs.trail == old(nvs.trail) && nvs.faults > old(nvs.faults)
    {
      ghost var before := nvs.image;
      assert Fit(p, before);
      SlotVerdictIff(p, before, ns, key, |value|, MaxRecords(ns));
      assert SlotVerdict(p, before, ns, key, |value|, MaxRecords(ns)).Ok?;
      hide StorableWithin, SlotVerdict, NameOf, Contents, Image.Get, Image.Set, Fit, DecodeRecord, SlotsSound,
           AllReopenable;
      PutKeepsFit(p, before, ns, key, value);
      AcceptedSlot(p, before, ns, key, |value|, MaxRecords(ns));
      var record := EncodeRecord(key, value);
      r := nvs.SetBlob(ns, name, record.value);
      if r.Ok? {
        SlotsSurvivePut(p, slots.slots, before, nvs.image, ns);
        StillReopenable(p, old(nvs.trail), nvs.image);
      }
    }

    /** A put changes its own key and nothing else; a refused or failed put changes nothing. */
    method PutRecord(ns: Ns, key: Bytes, value: Bytes) returns (r: Result<()>)
      requires Durable() && IsSignal(ns) && KeyOk(p, ns, key) && ValueOk(p, ns, value)
      modifies nvs, slots
      ensures Durable() && nvs.faults >= old(nvs.faults)
      ensures r.Ok? ==> Storable(p, old(nvs.image), ns, key, |value|)
      ensures r.Ok? ==> nvs.image == Put(p, old(nvs.image), ns, key, value) && nvs.trail == old(nvs.trail) + [nvs.image]
      ensures r.Ok? ==> Stored(p, nvs.image, ns) == old(Stored(p, nvs.image, ns))[key := value]
      ensures r.Ok? ==> forall other :: other != ns ==> nvs.image.Get(other) == old(nvs.image).Get(other)
      ensures r.Err? ==> nvs.image == old(nvs.image) && nvs.trail == old(nvs.trail)
      ensures r.Err? ==> nvs.faults > old(nvs.faults) || !Storable(p, nvs.image, ns, key, |value|)
    {
      hide FlashNamespaces.Durable, StorableWithin, Stored, KeyOk, ValueOk, Put, Image.Get;
      var name := CheckRecordSlot(ns, key, |value|, MaxRecords(ns));
      if name.Err? {
        return Err(name.error);
      }
      r := FileRecord(ns, name.value, key, value);
    }

    /** A delete removes its own key and nothing else; an absent key is harmless, a foreign record is refused. */
    method DeleteRecord(ns: Ns, key: Bytes) returns (r: Result<()>)
      requires Durable() && IsSignal(ns)
      modifies nvs, slots
      ensures Durable() && nvs.faults >= old(nvs.faults)
      ensures slots.slots == if ns == Sessions then [] else old(slots.slots)
      ensures r.Ok? ==> Stored(p, nvs.image, ns) == old(Stored(p, nvs.image, ns)) - {key}
      ensures r.Ok? ==> forall other :: other != ns ==> nvs.image.Get(other) == old(nvs.image).Get(other)
      ensures r.Err? ==> nvs.image == old(nvs.image) && nvs.trail == old(nvs.trail)
      ensures r.Err? ==> nvs.faults > old(nvs.faults)
                         || (KeyName(p.hash, key) in nvs.image.Get(ns) && key !in Stored(p, nvs.image, ns))
    {
      hide NameOf, Contents, Image.Get, Image.Set, DecodeRecord, Fit, AllReopenable;
      ghost var before := nvs.image;
      if ns == Sessions {
        slots.Clear();
      }
      LookupByName(p, before, ns, key);
      var name := RecordName(p.hash(key));
      var read := nvs.ReadBlob(ns, name, HEADER_LEN + MAX_KEY_LEN + MAX_RECORD_LEN);
      if read.Err? {
        return Err(read.error);
      }
      if read.value.Some? {
        var entry := DecodeRecord(read.value.value);
        if entry.Err? {
          return Err(Invalid);
        }
        if entry.value.key != key {
          return Err(Invalid);
        }
        DeleteKeepsFit(p, before, ns, key);
        r := nvs.Remove(ns, name);
        if r.Ok? {
          StillReopenable(p, old(nvs.trail), nvs.image);
        }
        return;
      }
      assert Stored(p, before, ns) - {key} == Stored(p, before, ns);
      return Ok(());
    }

    method LoadDevice() returns (r: Result<Option<Device>>)
      requires nvs.Valid()
      modifies nvs`faults
      ensures nvs.Valid()
      ensures (r == LoadedDevice(p, nvs.image.linked) && nvs.faults == old(nvs.faults))
              || (r == Err(Io) && nvs.faults > old(nvs.faults))
    {
      var read := nvs.ReadBlob(Linked, CURRENT, HEADER_LEN + |DEVICE_KEY| + MAX_DEVICE_LEN);
      if read.Err? {
        return Err(read.error);
      }
      if read.value.None? {
        return Ok(None);
      }
      var entry := DecodeRecord(read.value.value);
      if entry.Err? {
        return Err(entry.error);
      }
      if entry.value.key != DEVICE_KEY {
        return Err(Invalid);
      }
      var device := p.parseDevice(entry.value.value);
      return if device.None? then Err(Invalid) else Ok(device);
    }

    /** Once saved, the device is what the next boot loads. */
    method SaveDevice(device: Device) returns (r: Result<()>)
      requires Durable() && p.JsonRoundTrips()
      modifies nvs
      ensures Durable() && nvs.faults >= old(nvs.faults)
      ensures r.Ok? ==> LoadedDevice(p, nvs.image.linked) == Ok(Some(device))
      ensures r.Ok? ==> forall ns :: ns != Linked ==> nvs.image.Get(ns) == old(nvs.image).Get(ns)
      ensures r.Err? ==> nvs.image == old(nvs.image) && nvs.trail == old(nvs.trail)
      ensures r.Err? ==> nvs.faults > old(nvs.faults) || |p.deviceJson(device)| > MAX_DEVICE_LEN
    {
      hide AllReopenable, SlotsSound;
      var payload := p.deviceJson(device);
      if |payload| > MAX_DEVICE_LEN {
        return Err(Invalid);
      }
      var record := EncodeRecord(DEVICE_KEY, payload);
      DecodeEncode(DEVICE_KEY, payload);
      hide EncodeRecord, DecodeRecord;
      ghost var before := nvs.image;
      r := nvs.SetBlob(Linked, CURRENT, record.value);
      if r.Ok? {
        assert forall ns | ns != Linked :: nvs.image.Get(ns) == before.Get(ns);
        assert LoadedDevice(p, nvs.image.linked) == Ok(Some(device));
        hide LoadedDevice, Replayable;
        assert nvs.image.Get(Control) == before.Get(Control) && nvs.image.Get(Sessions) == before.Get(Sessions);
        assert Fit(p, nvs.image);
        StillReopenable(p, old(nvs.trail), nvs.image);
      }
    }

    method LoadLatestSyncKeyId() returns (r: Result<Option<Bytes>>)
      requires nvs.Valid()
      modifies nvs`faults
      ensures nvs.Valid()
      ensures (r == LoadedMarker(nvs.image.control) && nvs.faults == old(nvs.faults))
              || (r == Err(Io) && nvs.faults > old(nvs.faults))
    {
      var read := nvs.ReadBlob(Control, LATEST, HEADER_LEN + |LATEST_KEY| + MAX_KEY_LEN);
      if read.Err? {
        return Err(read.error);
      }
      if read.value.None? {
        return Ok(None);
      }
      var entry := DecodeRecord(read.value.value);
      if entry.Err? {
        return Err(entry.error);
      }
      return if entry.value.key != LATEST_KEY then Err(Invalid) else Ok(Some(entry.value.value));
    }

    method SaveLatestSyncKeyId(id: Bytes) returns (r: Result<()>)
      requires Durable()
      modifies nvs
      ensures Durable() && nvs.faults >= old(nvs.faults)
      ensures r.Ok? ==> |id| <= MAX_KEY_LEN && nvs.image == WithLatest(old(nvs.image), id)
      ensures r.Ok? ==> LoadedMarker(nvs.image.control) == Ok(Some(id)) && nvs.trail == old(nvs.trail) + [nvs.image]
      ensures r.Ok? ==> forall ns :: ns != Control ==> nvs.image.Get(ns) == old(nvs.image).Get(ns)
      ensures ResetPending(nvs.image.Get(Control)) <==> ResetPending(old(nvs.image).Get(Control))
      ensures r.Err? ==> nvs.image == old(nvs.image) && nvs.trail == old(nvs.trail)
      ensures r.Err? ==> nvs.faults > old(nvs.faults) || |id| > MAX_KEY_LEN
    {
      hide AllReopenable, SlotsSound, LoadedDevice;
      if |id| > MAX_KEY_LEN {
        return Err(Invalid);
      }
      var record := EncodeRecord(LATEST_KEY, id);
      DecodeEncode(LATEST_KEY, id);
      hide EncodeRecord, DecodeRecord;
      ghost var before := nvs.image;
      r := nvs.SetBlob(Control, LATEST, record.value);
      if r.Ok? {
        assert forall ns | ns != Control :: nvs.image.Get(ns) == before.Get(ns);
        assert LoadedMarker(nvs.image.control) == Ok(Some(id));
        assert LATEST != RESET && ResetMarkReadable(nvs.image.control) == ResetMarkReadable(before.control);
        hide LoadedMarker, Replayable, ResetMarkReadable;
        assert nvs.image.Get(Linked) == before.Get(Linked) && nvs.image.Get(Sessions) == before.Get(Sessions);
        assert Fit(p, nvs.image);
        StillReopenable(p, old(nvs.trail), nvs.image);
      }
    }

    /** One record of a replay: it must decode, sit under its own name, and respect the size bound. */
    method ReadRecord(ns: Ns, name: Name) returns (r: Result<Entry>)
      requires nvs.Valid() && name in nvs.image.Get(ns)
      modifies nvs`faults
      ensures nvs.Valid() && nvs.faults >= old(nvs.faults)
      ensures r.Ok? ==> WellFiled(p.hash, name, nvs.image.Get(ns)[name], MaxValue(ns)) && nvs.faults == old(nvs.faults)
      ensures r.Ok? ==> DecodeRecord(nvs.image.Get(ns)[name]) == r
      ensures r.Err? ==> nvs.faults > old(nvs.faults) || !WellFiled(p.hash, name, nvs.image.Get(ns)[name], MaxValue(ns))
    {
      hide NameOf;
      var read := nvs.ReadBlob(ns, name, HEADER_LEN + MAX_KEY_LEN + MaxValue(ns));
      if read.Err? {
        if WellFiled(p.hash, name, nvs.image.Get(ns)[name], MaxValue(ns)) {
          WellFiledFits(p.hash, name, nvs.image.Get(ns)[name], MaxValue(ns));
        }
        return Err(read.error);
      }
      hide DecodeRecord;
      if read.value.None? {
        return Err(Invalid);
      }
      var entry := DecodeRecord(read.value.value);
      if entry.Err? {
        return entry;
      }
      var expected := RecordName(p.hash(entry.value.key));
      if expected != name || |entry.value.value| > MaxValue(ns) {
        return Err(Invalid);
      }
      return entry;
    }

    /** Every record of a namespace, or the reason it cannot be replayed. */
    method LoadRecords(ns: Ns) returns (r: Result<seq<Entry>>)
      requires nvs.Valid()
      modifies nvs`faults
      ensures nvs.Valid() && nvs.faults >= old(nvs.faults)
      ensures r.Ok? ==> WellFormed(p.hash, nvs.image.Get(ns), MaxValue(ns)) && |nvs.image.Get(ns)| <= MaxRecords(ns)
      ensures r.Ok? ==> Enumerates(r.value, Stored(p, nvs.image, ns))
      ensures r.Err? ==> nvs.faults > old(nvs.faults)
                         || !WellFormed(p.hash, nvs.image.Get(ns), MaxValue(ns)) || |nvs.image.Get(ns)| > MaxRecords(ns)
    {
      var names := nvs.RecordNames(ns);
      if names.Err? {
        return Err(names.error);
      }
      if |names.value| > MaxRecords(ns) {
        return Err(Invalid);
      }
      assert forall i :: 0 <= i < |names.value| ==> names.value[i] in Elements(names.value);
      hide WellFiled, WellFormed, DecodeRecord, NameOf, Contents, Image.Get, EntriesUnder;
      r := ReadAll(ns, names.value);
      if r.Ok? {
        EntriesEnumerate(p.hash, nvs.image.Get(ns), MaxValue(ns), names.value);
        FiledUnderAll(p.hash, nvs.image.Get(ns), MaxValue(ns), names.value);
      } else if WellFormed(p.hash, nvs.image.Get(ns), MaxValue(ns)) {
        AllWellFiled(p.hash, nvs.image.Get(ns), MaxValue(ns), names.value);
        assert nvs.faults > old(nvs.faults);
      }
    }

    /** Reads the named records in turn, up to the first that does not pass. */
    method ReadAll(ns: Ns, names: seq<Name>) returns (r: Result<seq<Entry>>)
      requires nvs.Valid() && forall i :: 0 <= i < |names| ==> names[i] in nvs.image.Get(ns)
      modifies nvs`faults
      ensures nvs.Valid() && nvs.faults >= old(nvs.faults)
      ensures r.Ok? ==> r.value == EntriesUnder(nvs.image.Get(ns), names, |names|)
      ensures r.Ok? ==>
                forall i :: 0 <= i < |names| ==> WellFiled(p.hash, names[i], nvs.image.Get(ns)[names[i]], MaxValue(ns))
      ensures r.Err? ==> nvs.faults > old(nvs.faults)
                         || exists i :: 0 <= i < |names| && !WellFiled(p.hash, names[i], nvs.image.Get(ns)[names[i]],
                                                                       MaxValue(ns))
    {
      var records: seq<Entry> := [];
      NoEntriesUnder(nvs.image.Get(ns), names);
      hide *;
      for i := 0 to |names|
        invariant nvs.Valid() && nvs.faults == old(nvs.faults)
        invariant records == EntriesUnder(nvs.image.Get(ns), names, i)
        invariant forall j :: 0 <= j < i ==> WellFiled(p.hash, names[j], nvs.image.Get(ns)[names[j]], MaxValue(ns))
      {
        hide *;
        var record := ReadRecord(ns, names[i]);
        if record.Err? {
          return Err(record.error);
        }
        OneMoreEntry(nvs.image.Get(ns), names, i, record.value);
        records := records + [record.value];
      }
      return Ok(records);
    }

    method HasSignalRecords() returns (r: Result<bool>)
      requires nvs.Valid()
      modifies nvs`faults
      ensures nvs.Valid()
      ensures r.Ok? ==> (r.value <==> exists ns :: IsSignal(ns) && nvs.image.Get(ns) != map[])
      ensures r.Ok? ==> nvs.faults == old(nvs.faults)
      ensures r.Err? ==> nvs.faults > old(nvs.faults)
    {
      for i := 0 to |SIGNAL|
        invariant nvs.Valid() && nvs.faults == old(nvs.faults)
        invariant forall j :: 0 <= j < i ==> nvs.image.Get(SIGNAL[j]) == map[]
      {
        var names := nvs.RecordNames(SIGNAL[i]);
        if names.Err? {
          return Err(names.error);
        }
        if |names.value| != 0 {
          return Ok(true);
        }
      }
      SignalListed();
      return Ok(false);
    }

    /** The six Signal namespaces, one after the other. */
    method EraseSignalSpaces() returns (r: Result<()>)
      requires nvs.Valid()
      modifies nvs
      ensures nvs.Valid() && LosingSignal(old(nvs.image), nvs.image) && nvs.faults >= old(nvs.faults)
      ensures old(nvs.trail) <= nvs.trail
      ensures forall i :: |old(nvs.trail)| <= i < |nvs.trail| ==> LosingSignal(old(nvs.image), nvs.trail[i])
      ensures r.Ok? ==> forall ns :: nvs.image.Get(ns) == if IsSignal(ns) then map[] else old(nvs.image).Get(ns)
      ensures r.Err? ==> nvs.faults > old(nvs.faults)
    {
      hide *;
      ghost var before := nvs.image;
      NothingLost(before);
      SignalListed();
      for i := 0 to |SIGNAL|
        invariant nvs.Valid() && LosingSignal(before, nvs.image) && nvs.faults >= old(nvs.faults)
        invariant old(nvs.trail) <= nvs.trail
        invariant forall j :: |old(nvs.trail)| <= j < |nvs.trail| ==> LosingSignal(before, nvs.trail[j])
        invariant forall ns :: !IsSignal(ns) ==> nvs.image.Get(ns) == before.Get(ns)
        invariant forall j :: 0 <= j < i ==> nvs.image.Get(SIGNAL[j]) == map[]
      {
        hide *;
        ghost var middle := nvs.image;
        r := nvs.EraseNamespace(SIGNAL[i]);
        forall part | PartlyErased(middle, SIGNAL[i], part) ensures LosingSignal(before, part) {
          LosingSignalFurther(before, middle, SIGNAL[i], part);
        }
        if r.Err? {
          return;
        }
      }
      return Ok(());
    }

    /** Erases every Signal record and the marker that names one of them; the device is not touched. */
    method EraseSignal() returns (r: Result<()>)
      requires Valid()
      modifies nvs, slots
      ensures Valid() && slots.slots == [] && LosingSignal(old(nvs.image), nvs.image) && nvs.faults >= old(nvs.faults)
      ensures old(nvs.trail) <= nvs.trail
      ensures forall i :: |old(nvs.trail)| <= i < |nvs.trail| ==> LosingSignal(old(nvs.image), nvs.trail[i])
      ensures r.Ok? ==> nvs.image == SignalErased(old(nvs.image))
      ensures r.Err? ==> nvs.faults > old(nvs.faults)
    {
      hide LosingSignal, Image.Get, Drop, SignalErased;
      ghost var before := nvs.image;
      NothingLost(before);
      slots.Clear();
      r := nvs.RemoveBlob(Control, LATEST);
      if r.Err? {
        return;
      }
      ghost var unmarked := nvs.image;
      MarkerDropped(before);
      r := EraseSignalSpaces();
      forall t | LosingSignal(unmarked, t) ensures LosingSignal(before, t) {
        LosingMore(before, unmarked, t);
      }
      if r.Ok? {
        AllSignalErased(before, nvs.image);
      }
    }

    /** The device goes first; only records disappear, and on success none is left. */
    method EraseAll() returns (r: Result<()>)
      requires Valid()
      modifies nvs, slots
      ensures nvs.Valid() && slots.Valid() && Shrunk(old(nvs.image), nvs.image) && nvs.faults >= old(nvs.faults)
      ensures old(nvs.trail) <= nvs.trail
      ensures forall i :: |old(nvs.trail)| <= i < |nvs.trail| ==> Shrunk(old(nvs.image), nvs.trail[i])
      ensures Valid()
      ensures r.Ok? ==> nvs.image == SignalErased(old(nvs.image)).Set(Linked, map[]) && slots.slots == []
      ensures r.Err? ==> nvs.faults > old(nvs.faults)
    {
      ghost var before := nvs.image;
      r := nvs.EraseNamespace(Linked);
      forall part | PartlyErased(before, Linked, part) ensures Shrunk(before, part) {
        PartlyErasedShrinks(before, Linked, part);
      }
      assert nvs.image.Get(Sessions) == before.Get(Sessions);
      if r.Err? {
        return;
      }
      ghost var middle := nvs.image;
      hide PartlyErased, Shrunk;
      r := EraseSignal();
      forall t | LosingSignal(middle, t) ensures Shrunk(before, t) {
        ShrunkTransitive(before, middle, t);
      }
    }

    /** Every moment of a reset either still carries the marker or is already blank. */
    method CompleteReset() returns (r: Result<()>)
      requires Valid() && MidReset(nvs.image)
      modifies nvs, slots
      ensures Valid() && old(nvs.trail) <= nvs.trail && nvs.faults >= old(nvs.faults)
      ensures forall i :: |old(nvs.trail)| <= i < |nvs.trail| ==>
                Resetting(old(nvs.image), nvs.trail[i]) || nvs.trail[i] == Blank(old(nvs.image))
      ensures r.Ok? ==> nvs.image == Blank(old(nvs.image)) && slots.slots == []
      ensures r.Err? ==> MidReset(nvs.image) && Shrunk(old(nvs.image), nvs.image) && nvs.faults > old(nvs.faults)
    {
      ghost var before := nvs.image;
      hide Shrunk, MidReset;
      r := EraseAll();
      forall t | Shrunk(before, t) ensures Resetting(before, t) {
        ShrinkingStaysMidReset(before, t);
      }
      if r.Err? {
        return;
      }
      ghost var seen := nvs.trail;
      r := nvs.RemoveBlob(Control, RESET);
      if r.Ok? {
        assert nvs.image == Blank(before);
      }
    }

    /** The marker is committed before anything is erased, and removed only after everything is. */
    method ResetAll() returns (r: Result<()>)
      requires Valid()
      modifies nvs, slots
      ensures Valid() && old(nvs.trail) <= nvs.trail && nvs.faults >= old(nvs.faults)
      ensures forall i :: |old(nvs.trail)| <= i < |nvs.trail| ==>
                Resetting(old(nvs.image), nvs.trail[i]) || nvs.trail[i] == Blank(old(nvs.image))
      ensures r.Ok? ==> nvs.image == Blank(old(nvs.image)) && slots.slots == []
      ensures r.Err? ==>
                nvs.image == old(nvs.image) || (MidReset(nvs.image) && Shrunk(Marked(old(nvs.image)), nvs.image))
      ensures r.Err? ==> nvs.faults > old(nvs.faults)
    {
      ghost var before := nvs.image;
      r := nvs.SetBlob(Control, RESET, RESET_MARK);
      if r.Err? {
        return;
      }
      assert nvs.image.Get(Sessions) == before.Get(Sessions);
      ghost var marked := nvs.image;
      assert MidReset(marked);
      assert Blank(marked) == Blank(before) by {
        assert marked.control - {LATEST} - {RESET} == before.control - {LATEST} - {RESET};
      }
      hide MidReset, Blank, SlotsSound;
      r := CompleteReset();
    }

    /**
     * Files a sync key and records it as the latest. The slot is checked first, then the marker is committed, then
     * the key; a failure or power loss between the two leaves a marker for a key that may not exist yet.
     */
    method PutLatestSyncKey(id: Bytes, payload: Bytes) returns (r: Result<()>)
      requires Durable() && p.parseSyncKey(payload).Some?
      modifies nvs, slots
      ensures Durable() && nvs.faults >= old(nvs.faults)
      ensures r.Ok? ==> Storable(p, old(nvs.image), SyncKeys, id, |payload|)
      ensures r.Ok? ==> Stored(p, nvs.image, SyncKeys) == old(Stored(p, nvs.image, SyncKeys))[id := payload]
      ensures r.Ok? ==> LoadedMarker(nvs.image.control) == Ok(Some(id))
      ensures r.Ok? ==> forall ns :: ns != Control && ns != SyncKeys ==> nvs.image.Get(ns) == old(nvs.image).Get(ns)
      ensures r.Ok? ==>
                |id| <= MAX_KEY_LEN && nvs.trail == old(nvs.trail) + [WithLatest(old(nvs.image), id)] + [nvs.image]
      ensures ResetPending(nvs.image.Get(Control)) <==> ResetPending(old(nvs.image).Get(Control))
      ensures r.Err? ==>
                nvs.image == old(nvs.image) || (|id| <= MAX_KEY_LEN && nvs.image == WithLatest(old(nvs.image), id))
      ensures r.Err? ==> forall ns :: ns != Control ==> nvs.image.Get(ns) == old(nvs.image).Get(ns)
      ensures r.Err? ==> nvs.faults > old(nvs.faults)
                         || !Storable(p, old(nvs.image), SyncKeys, id, |payload|)
    {
      assert IsSignal(SyncKeys) && KeyOk(p, SyncKeys, id) && ValueOk(p, SyncKeys, payload);
      StorableIs(p, nvs.image, SyncKeys, id, |payload|);
      hide *;
      ghost var before := nvs.image;
      var name := CheckRecordSlot(SyncKeys, id, |payload|, MaxRecords(SyncKeys));
      if name.Err? {
        return Err(name.error);
      }
      r := SaveLatestSyncKeyId(id);
      if r.Err? {
        return;
      }
      ghost var marked := nvs.image;
      SameStorable(p, before, marked, SyncKeys, id, |payload|);
      SameStored(p, before, marked, SyncKeys);
      r := FileRecord(SyncKeys, name.value, id, payload);
      if r.Ok? {
        ControlIsGet(marked);
        ControlIsGet(nvs.image);
      }
    }

    /** Erases the session records alone and says how many there were. */
    method ClearSessions() returns (r: Result<nat>)
      requires Durable()
      modifies nvs, slots
      ensures Durable() && nvs.faults >= old(nvs.faults)
      ensures PartlyErased(old(nvs.image), Sessions, nvs.image) && old(nvs.trail) <= nvs.trail
      ensures forall i :: |old(nvs.trail)| <= i < |nvs.trail| ==> PartlyErased(old(nvs.image), Sessions, nvs.trail[i])
      ensures r.Ok? ==> nvs.image == old(nvs.image).Set(Sessions, map[]) && r.value == |old(nvs.image).Get(Sessions)|
      ensures r.Err? ==> nvs.faults > old(nvs.faults)
    {
      ghost var before := nvs.image;
      NothingErased(before, Sessions);
      var count := nvs.RecordCount(Sessions);
      if count.Err? {
        return count;
      }
      slots.Clear();
      var erased := nvs.EraseNamespace(Sessions);
      hide Image.Get, Image.Set, Fit, Reopenable;
      forall part | PartlyErased(before, Sessions, part) ensures Fit(p, part) && Reopenable(p, part) {
        PartlyErasedShrinks(before, Sessions, part);
        ShrunkFit(p, before, part);
        FitIsReopenable(p, part);
      }
      hide PartlyErased;
      return if erased.Ok? then count else Err(erased.error);
    }

    /** The logical key of one record, read back from flash. */
    method ReadAddress(ns: Ns, name: Name) returns (r: Result<Bytes>)
      requires nvs.Valid() && Fit(p, nvs.image) && (ns == Identities || ns == Sessions) && name in nvs.image.Get(ns)
      modifies nvs`faults
      ensures nvs.Valid()
      ensures r.Ok? ==> r.value == EntryOf(nvs.image.Get(ns)[name]).key && nvs.faults == old(nvs.faults)
      ensures r.Err? ==> nvs.faults > old(nvs.faults)
    {
      RecordAt(p, nvs.image, ns, name);
      hide DecodeRecord, Image.Get;
      var read := nvs.ReadBlob(ns, name, HEADER_LEN + MAX_KEY_LEN + MAX_RECORD_LEN);
      if read.Err? {
        return Err(read.error);
      }
      var entry := DecodeRecord(read.value.value);
      if entry.Err? || !p.isUtf8(entry.value.key) {
        return Err(Invalid);
      }
      return Ok(entry.value.key);
    }

    /** The logical keys of a namespace, each record read back; a failed read fails the whole listing. */
    method NamespaceAddresses(ns: Ns) returns (r: Result<seq<Bytes>>)
      requires nvs.Valid() && Fit(p, nvs.image) && (ns == Identities || ns == Sessions)
      modifies nvs`faults
      ensures nvs.Valid()
      ensures r.Ok? ==> Elements(r.value) == Stored(p, nvs.image, ns).Keys && nvs.faults == old(nvs.faults)
      ensures r.Err? ==> nvs.faults > old(nvs.faults)
    {
      hide *;
      AddressSpace(ns);
      ghost var space := nvs.image.Get(ns);
      var names := nvs.RecordNames(ns);
      if names.Err? {
        return Err(names.error);
      }
      NamesListed(space, names.value);
      NoKeysUnder(space, names.value);
      var addresses: seq<Bytes> := [];
      for i := 0 to |names.value|
        invariant nvs.Valid() && nvs.faults == old(nvs.faults)
        invariant addresses == KeysUnder(space, names.value, i)
      {
        hide *;
        var address := ReadAddress(ns, names.value[i]);
        if address.Err? {
          return Err(address.error);
        }
        OneMoreKey(space, names.value, i);
        addresses := addresses + [address.value];
      }
      AddressesAreKeys(p, nvs.image, ns, names.value);
      return Ok(addresses);
    }
  }

  /** The logical keys carried by the first `n` named records. */
  ghost function KeysUnder(space: Space, names: seq<Name>, n: nat): seq<Bytes>
    requires n <= |names| && forall i :: 0 <= i < |names| ==> names[i] in space
  {
    if n == 0 then [] else KeysUnder(space, names, n - 1) + [EntryOf(space[names[n - 1]]).key]
  }

  lemma {:induction false} KeysUnderAt(space: Space, names: seq<Name>, n: nat, i: nat)
    requires i < n <= |names| && forall j :: 0 <= j < |names| ==> names[j] in space
    ensures |KeysUnder(space, names, n)| == n && KeysUnder(space, names, n)[i] == EntryOf(space[names[i]]).key
  {
    if n > 1 {
      KeysUnderAt(space, names, n - 1, if i < n - 1 then i else 0);
    }
  }

  lemma AddressesAreKeys(p: Platform, img: Image, ns: Ns, names: seq<Name>)
    requires Fit(p, img) && IsSignal(ns) && Elements(names) == img.Get(ns).Keys
    requires forall i :: 0 <= i < |names| ==> names[i] in img.Get(ns)
    ensures Elements(KeysUnder(img.Get(ns), names, |names|)) == Stored(p, img, ns).Keys
  {
    hide DecodeRecord, NameOf, Contents, KeysUnder;
    var space, addresses := img.Get(ns), KeysUnder(img.Get(ns), names, |names|);
    if |names| == 0 {
      assert addresses == [] by {
        NoKeysUnder(space, names);
      }
    } else {
      KeysUnderAt(space, names, |names|, 0);
    }
    forall i | 0 <= i < |names| ensures addresses[i] in Stored(p, img, ns) {
      KeysUnderAt(space, names, |names|, i);
      RecordAt(p, img, ns, names[i]);
    }
    forall k | k in Stored(p, img, ns) ensures k in addresses {
      StoredUnderName(p, img, ns, k);
      assert KeyName(p.hash, k) in Elements(names);
      var i :| 0 <= i < |names| && names[i] == KeyName(p.hash, k);
      KeysUnderAt(space, names, |names|, i);
      assert addresses[i] == k;
    }
  }

  lemma NamesListed(space: Space, names: seq<Name>)
    requires Elements(names) == space.Keys
    ensures forall i :: 0 <= i < |names| ==> names[i] in space
  {
    assert forall i :: 0 <= i < |names| ==> names[i] in Elements(names);
  }

  lemma AddressSpace(ns: Ns)
    requires ns == Identities || ns == Sessions
    ensures IsSignal(ns)
  {
  }

  lemma OneMoreKey(space: Space, names: seq<Name>, n: nat)
    requires n < |names| && forall i :: 0 <= i < |names| ==> names[i] in space
    ensures KeysUnder(space, names, n + 1) == KeysUnder(space, names, n) + [EntryOf(space[names[n]]).key]
  {
  }

  lemma NoKeysUnder(space: Space, names: seq<Name>)
    requires forall i :: 0 <= i < |names| ==> names[i] in space
    ensures KeysUnder(space, names, 0) == []
  {
  }

  lemma WellFiledFits(hash: Hash, name: Name, record: Bytes, maxValue: nat)
    requires WellFiled(hash, name, record, maxValue)
    ensures |record| <= HEADER_LEN + MAX_KEY_LEN + maxValue
  {
    EncodeDecode(record);
  }

  ghost function EntryOf(record: Bytes): Entry {
    var entry := DecodeRecord(record);
    if entry.Ok? then entry.value else Entry([], [])
  }

  /** The first `n` named records, decoded. */
  ghost function EntriesUnder(space: Space, names: seq<Name>, n: nat): seq<Entry>
    requires n <= |names| && forall i :: 0 <= i < |names| ==> names[i] in space
  {
    if n == 0 then [] else EntriesUnder(space, names, n - 1) + [EntryOf(space[names[n - 1]])]
  }

  /** The entries of a map, each key once, in any order. */
  ghost predicate Enumerates(entries: seq<Entry>, m: map<Bytes, Bytes>) {
    && (forall i, j :: 0 <= i < j < |entries| ==> entries[i].key != entries[j].key)
    && (forall i :: 0 <= i < |entries| ==> entries[i].key in m && m[entries[i].key] == entries[i].value)
    && (forall k :: k in m ==> exists i :: 0 <= i < |entries| && entries[i].key == k)
  }

  lemma {:induction false} EntriesUnderAt(space: Space, names: seq<Name>, n: nat, i: nat)
    requires i < n <= |names| && forall j :: 0 <= j < |names| ==> names[j] in space
    ensures |EntriesUnder(space, names, n)| == n && EntriesUnder(space, names, n)[i] == EntryOf(space[names[i]])
  {
    if n > 1 {
      EntriesUnderAt(space, names, n - 1, if i < n - 1 then i else 0);
    }
  }

  lemma OneMoreEntry(space: Space, names: seq<Name>, n: nat, entry: Entry)
    requires n < |names| && forall i :: 0 <= i < |names| ==> names[i] in space
    requires DecodeRecord(space[names[n]]) == Ok(entry)
    ensures EntriesUnder(space, names, n + 1) == EntriesUnder(space, names, n) + [entry]
  {
  }

  lemma NoEntriesUnder(space: Space, names: seq<Name>)
    requires forall i :: 0 <= i < |names| ==> names[i] in space
    ensures EntriesUnder(space, names, 0) == []
  {
  }

  lemma AllWellFiled(hash: Hash, space: Space, maxValue: nat, names: seq<Name>)
    requires WellFormed(hash, space, maxValue) && forall i :: 0 <= i < |names| ==> names[i] in space
    ensures forall i :: 0 <= i < |names| ==> WellFiled(hash, names[i], space[names[i]], maxValue)
  {
  }

  lemma FiledUnderAll(hash: Hash, space: Space, maxValue: nat, names: seq<Name>)
    requires Elements(names) == space.Keys && forall i :: 0 <= i < |names| ==> names[i] in space
    requires forall i :: 0 <= i < |names| ==> WellFiled(hash, names[i], space[names[i]], maxValue)
    ensures WellFormed(hash, space, maxValue)
  {
    hide WellFiled;
    forall name | name in space ensures WellFiled(hash, name, space[name], maxValue) {
      var i := IndexOf(names, space.Keys, name);
    }
  }

  lemma EntryAt(hash: Hash, space: Space, maxValue: nat, names: seq<Name>, i: nat)
    requires i < |names| && forall j :: 0 <= j < |names| ==> names[j] in space
    requires WellFiled(hash, names[i], space[names[i]], maxValue)
    ensures |EntriesUnder(space, names, |names|)| == |names|
    ensures
      var entry, m := EntriesUnder(space, names, |names|)[i], Contents(hash, space);
      entry.key in m && m[entry.key] == entry.value && KeyName(hash, entry.key) == names[i]
  {
    EntriesUnderAt(space, names, |names|, i);
    hide DecodeRecord, NameOf, EntriesUnder;
    assert Holds(hash, space, EntriesUnder(space, names, |names|)[i].key);
  }

  lemma NameOfStored(hash: Hash, space: Space, k: Bytes)
    requires k in Contents(hash, space)
    ensures KeyName(hash, k) in space
  {
  }

  lemma EntriesEnumerate(hash: Hash, space: Space, maxValue: nat, names: seq<Name>)
    requires Distinct(names) && Elements(names) == space.Keys
    requires forall i :: 0 <= i < |names| ==> names[i] in space && WellFiled(hash, names[i], space[names[i]], maxValue)
    ensures Enumerates(EntriesUnder(space, names, |names|), Contents(hash, space))
  {
    var entries, m := EntriesUnder(space, names, |names|), Contents(hash, space);
    EntriesCount(space, names);
    hide *;
    forall i, j | 0 <= i < j < |entries| ensures entries[i].key != entries[j].key {
      EntryAt(hash, space, maxValue, names, i);
      EntryAt(hash, space, maxValue, names, j);
      DistinctAt(names, i, j);
    }
    forall i | 0 <= i < |entries| ensures entries[i].key in m && m[entries[i].key] == entries[i].value {
      EntryAt(hash, space, maxValue, names, i);
    }
    forall k | k in m ensures exists i :: 0 <= i < |entries| && entries[i].key == k {
      NameOfStored(hash, space, k);
      var i := IndexOf(names, space.Keys, KeyName(hash, k));
      EntryAt(hash, space, maxValue, names, i);
      SameName(hash, space, maxValue, k, entries[i].key);
    }
    EnumeratesIntro(entries, m);
  }

  lemma EnumeratesIntro(entries: seq<Entry>, m: map<Bytes, Bytes>)
    requires forall i, j :: 0 <= i < j < |entries| ==> entries[i].key != entries[j].key
    requires forall i :: 0 <= i < |entries| ==> entries[i].key in m && m[entries[i].key] == entries[i].value
    requires forall k :: k in m ==> exists i :: 0 <= i < |entries| && entries[i].key == k
    ensures Enumerates(entries, m)
  {
  }

  lemma EntriesCount(space: Space, names: seq<Name>)
    requires forall i :: 0 <= i < |names| ==> names[i] in space
    ensures |EntriesUnder(space, names, |names|)| == |names|
  {
    if |names| == 0 {
      NoEntriesUnder(space, names);
    } else {
      EntriesUnderAt(space, names, |names|, 0);
    }
  }

  lemma DistinctAt(names: seq<Name>, i: nat, j: nat)
    requires Distinct(names) && i < j < |names|
    ensures names[i] != names[j]
  {
  }

  lemma IndexOf(names: seq<Name>, all: set<Name>, name: Name) returns (i: nat)
    requires Elements(names) == all && name in all
    ensures i < |names| && names[i] == name
  {
    i :| 0 <= i < |names| && names[i] == name;
  }

  /** Two stored keys with one name are one key. */
  lemma SameName(hash: Hash, space: Space, maxValue: nat, a: Bytes, b: Bytes)
    requires a in Contents(hash, space) && b in Contents(hash, space) && KeyName(hash, a) == KeyName(hash, b)
    ensures a == b
  {
    assert Holds(hash, space, a) && Holds(hash, space, b);
  }
}
