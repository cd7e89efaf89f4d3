/** Record codec, and a namespace of physically named records seen as a plain map from logical keys. */
module Records {
  import opened Prelude
  import opened RecordNames

  const MAGIC: Bytes := [87, 65, 49]
  const HEADER_LEN := 5
  const MAX_KEY_LEN := 512
  const MAX_RECORD_LEN := 64 * 1024

  datatype Entry = Entry(key: Bytes, value: Bytes)

  function EncodeRecord(key: Bytes, value: Bytes): Result<Bytes> {
    if |key| > MAX_KEY_LEN then Err(Invalid)
    else Ok(MAGIC + [|key| % 256, |key| / 256] + key + value)
  }

  function DecodeRecord(record: Bytes): Result<Entry> {
    if |record| < HEADER_LEN || record[..3] != MAGIC then Err(Invalid)
    else
      var keyLen := Le16(record[3], record[4]);
      if keyLen > MAX_KEY_LEN || keyLen > |record| - HEADER_LEN then Err(Invalid)
      else Ok(Entry(record[HEADER_LEN..HEADER_LEN + keyLen], record[HEADER_LEN + keyLen..]))
  }

  lemma DecodeEncode(key: Bytes, value: Bytes)
    requires |key| <= MAX_KEY_LEN
    ensures
      var record := EncodeRecord(key, value).value;
      |record| == HEADER_LEN + |key| + |value| && DecodeRecord(record) == Ok(Entry(key, value))
  {
    var record := EncodeRecord(key, value).value;
    assert record[..3] == MAGIC;
    assert Le16(record[3], record[4]) == |key|;
    assert record[HEADER_LEN..HEADER_LEN + |key|] == key;
    assert record[HEADER_LEN + |key|..] == value;
  }

  /** The format is canonical: a record that decodes is the encoding of what it decodes to. */
  lemma EncodeDecode(record: Bytes)
    requires DecodeRecord(record).Ok?
    ensures
      var entry := DecodeRecord(record).value;
      EncodeRecord(entry.key, entry.value) == Ok(record)
      && |entry.key| <= MAX_KEY_LEN
      && |record| == HEADER_LEN + |entry.key| + |entry.value|
  {
    var entry := DecodeRecord(record).value;
    var again := EncodeRecord(entry.key, entry.value).value;
    assert record == record[..3] + [record[3], record[4]] + entry.key + entry.value;
    assert again == record;
  }

  /** A record byte by byte: `WA1`, the length of the key with its low byte first, the key, and then the value. */
  ghost predicate LaidOut(record: Bytes, low: byte, high: byte, key: Bytes, value: Bytes) {
    && record == [87] + [65] + [49] + [low] + [high] + key + value
    && low as int + 256 * high as int == |key| <= 512
  }

  lemma EncodingIsLaidOut(key: Bytes, value: Bytes)
    requires |key| <= 512
    ensures LaidOut(EncodeRecord(key, value).value, |key| % 256, |key| / 256, key, value)
  {
    assert MAGIC + [|key| % 256, |key| / 256] == [87] + [65] + [49] + [|key| % 256] + [|key| / 256];
  }

  lemma LaidOutIsEncoding(record: Bytes, low: byte, high: byte, key: Bytes, value: Bytes)
    requires LaidOut(record, low, high, key, value)
    ensures EncodeRecord(key, value) == Ok(record)
  {
    assert low == |key| % 256 && high == |key| / 256;
    EncodingIsLaidOut(key, value);
    hide EncodeRecord;
  }

  /** What a record decodes to, and what encodes to it, is exactly the key and the value laid out in it. */
  lemma RecordBytes(record: Bytes, key: Bytes, value: Bytes)
    ensures DecodeRecord(record) == Ok(Entry(key, value))
            <==> exists low, high :: LaidOut(record, low, high, key, value)
    ensures EncodeRecord(key, value) == Ok(record) <==> exists low, high :: LaidOut(record, low, high, key, value)
  {
    if DecodeRecord(record) == Ok(Entry(key, value)) {
      EncodeDecode(record);
    }
    if EncodeRecord(key, value) == Ok(record) {
      EncodingIsLaidOut(key, value);
    }
    if low, high :| LaidOut(record, low, high, key, value) {
      LaidOutIsEncoding(record, low, high, key, value);
      hide LaidOut, DecodeRecord;
      DecodeEncode(key, value);
    }
  }

  /** SHA-256 is not modelled: any function to 32 bytes will do, so names may collide. */
  type Hash = Bytes -> Digest

  type Name = string

  type Space = map<Name, Bytes>

  function KeyName(hash: Hash, key: Bytes): Name {
    NameOf(hash(key))
  }

  /** A record filed under the name of its own logical key, within the size bound. */
  ghost predicate WellFiled(hash: Hash, name: Name, record: Bytes, maxValue: nat) {
    && DecodeRecord(record).Ok?
    && KeyName(hash, DecodeRecord(record).value.key) == name
    && |DecodeRecord(record).value.value| <= maxValue
  }

  ghost predicate WellFormed(hash: Hash, space: Space, maxValue: nat) {
    forall name :: name in space ==> WellFiled(hash, name, space[name], maxValue)
  }

  /** A lookup of `key` finds a record carrying that very key. */
  ghost predicate Holds(hash: Hash, space: Space, key: Bytes) {
    && KeyName(hash, key) in space
    && DecodeRecord(space[KeyName(hash, key)]).Ok?
    && DecodeRecord(space[KeyName(hash, key)]).value.key == key
  }

  ghost function Found(hash: Hash, space: Space, key: Bytes): Bytes
    requires Holds(hash, space, key)
  {
    DecodeRecord(space[KeyName(hash, key)]).value.value
  }

  ghost function LogicalKeys(hash: Hash, space: Space): (keys: set<Bytes>)
    ensures forall k :: k in keys <==> Holds(hash, space, k)
  {
    var stored := set name | name in space && DecodeRecord(space[name]).Ok? :: DecodeRecord(space[name]).value.key;
    assert forall k | Holds(hash, space, k) ::
        KeyName(hash, k) in space && DecodeRecord(space[KeyName(hash, k)]).value.key in stored;
    set k | k in stored && Holds(hash, space, k)
  }

  /** The namespace as a plain map: what a lookup of each logical key finds. */
  ghost function Contents(hash: Hash, space: Space): (m: map<Bytes, Bytes>)
    ensures forall k :: k in m <==> Holds(hash, space, k)
    ensures forall k :: k in m ==> m[k] == Found(hash, space, k)
  {
    map k | k in LogicalKeys(hash, space) :: Found(hash, space, k)
  }

  lemma PutOneKey(hash: Hash, space: Space, key: Bytes, value: Bytes, k: Bytes)
    requires |key| <= MAX_KEY_LEN
    requires KeyName(hash, key) in space ==> Holds(hash, space, key)
    ensures
      var next := space[KeyName(hash, key) := EncodeRecord(key, value).value];
      && (Holds(hash, next, k) <==> k == key || Holds(hash, space, k))
      && (Holds(hash, next, k) ==> Found(hash, next, k) == if k == key then value else Found(hash, space, k))
  {
    DecodeEncode(key, value);
  }

  /** Filing a record whose name is free, or taken by the same key, changes that key and no other. */
  lemma PutContents(hash: Hash, space: Space, maxValue: nat, key: Bytes, value: Bytes)
    requires WellFormed(hash, space, maxValue) && |key| <= MAX_KEY_LEN && |value| <= maxValue
    requires KeyName(hash, key) in space ==> Holds(hash, space, key)
    ensures
      var next := space[KeyName(hash, key) := EncodeRecord(key, value).value];
      WellFormed(hash, next, maxValue) && Contents(hash, next) == Contents(hash, space)[key := value]
  {
    DecodeEncode(key, value);
    hide DecodeRecord, EncodeRecord, Holds, Found, Contents;
    forall k {
      PutOneKey(hash, space, key, value, k);
    }
  }

  lemma DeleteOneKey(hash: Hash, space: Space, maxValue: nat, key: Bytes, k: Bytes)
    requires WellFormed(hash, space, maxValue) && Holds(hash, space, key)
    ensures
      var next := space - {KeyName(hash, key)};
      && (Holds(hash, next, k) <==> k != key && Holds(hash, space, k))
      && (Holds(hash, next, k) ==> Found(hash, next, k) == Found(hash, space, k))
  {
  }

  /** Removing a key's record removes that key and no other. */
  lemma DeleteContents(hash: Hash, space: Space, maxValue: nat, key: Bytes)
    requires WellFormed(hash, space, maxValue) && Holds(hash, space, key)
    ensures
      var next := space - {KeyName(hash, key)};
      WellFormed(hash, next, maxValue) && Contents(hash, next) == Contents(hash, space) - {key}
  {
    hide DecodeRecord, Holds, Found, Contents;
    forall k {
      DeleteOneKey(hash, space, maxValue, key, k);
    }
  }

  /** Removing any one record removes exactly one logical key. */
  lemma DropOneRecord(hash: Hash, space: Space, maxValue: nat, name: Name) returns (key: Bytes)
    requires WellFormed(hash, space, maxValue) && name in space
    ensures WellFormed(hash, space - {name}, maxValue)
    ensures key in Contents(hash, space) && Contents(hash, space - {name}) == Contents(hash, space) - {key}
  {
    key := DecodeRecord(space[name]).value.key;
    hide Contents, DecodeRecord, NameOf;
    DeleteContents(hash, space, maxValue, key);
  }

  lemma EmptyContents(hash: Hash)
    ensures Contents(hash, map[]) == map[]
  {
  }

  /** Every record is visible under exactly one logical key, so physical and logical counts agree. */
  lemma {:induction false} CountsAgree(hash: Hash, space: Space, maxValue: nat)
    requires WellFormed(hash, space, maxValue)
    ensures |Contents(hash, space)| == |space|
    decreases |space|
  {
    hide *;
    if space == map[] {
      EmptyContents(hash);
    } else {
      var name :| name in space;
      var key := DropOneRecord(hash, space, maxValue, name);
      RemovalCount(space, name);
      RemovalCount(Contents(hash, space), key);
      CountsAgree(hash, space - {name}, maxValue);
    }
  }
}
