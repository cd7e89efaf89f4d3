/** Physical record names: the first 75 bits of the key's SHA-256, as fifteen base-32 characters. */
module RecordNames {

  type Digest = d: seq<bv8> | |d| == 32 witness seq(32, _ => 0)

  const NAME_LEN := 15

  const NAME_BITS := 75

  const ALPHABET: string := "abcdefghijklmnopqrstuvwxyz234567"

  /** The bit of a byte at position `i`, position 0 being the most significant. */
  function ByteBit(b: bv8, i: nat): bool
    requires i < 8
  {
    match i
    case 0 => b & 0x80 != 0
    case 1 => b & 0x40 != 0
    case 2 => b & 0x20 != 0
    case 3 => b & 0x10 != 0
    case 4 => b & 0x08 != 0
    case 5 => b & 0x04 != 0
    case 6 => b & 0x02 != 0
    case _ => b & 0x01 != 0
  }

  /** Bit `k` of the digest, counted from the most significant bit of byte 0. */
  function Bit(d: Digest, k: nat): bool
    requires k < 256
  {
    ByteBit(d[k / 8], k % 8)
  }

  function BitValue(bit: bool): bv8 {
    if bit then 1 else 0
  }

  /** Five bits, most significant first, as a number below 32. */
  function FiveBits(b0: bool, b1: bool, b2: bool, b3: bool, b4: bool): bv8
  {
    (BitValue(b0) << 4) | (BitValue(b1) << 3) | (BitValue(b2) << 2) | (BitValue(b3) << 1) | BitValue(b4)
  }

  lemma FiveBitsKeepsEachBit(b0: bool, b1: bool, b2: bool, b3: bool, b4: bool)
    ensures
      var v := FiveBits(b0, b1, b2, b3, b4);
      v < 32 &&
      b0 == (v & 16 != 0) && b1 == (v & 8 != 0) && b2 == (v & 4 != 0) && b3 == (v & 2 != 0) && b4 == (v & 1 != 0)
  {
  }

  /** Bits 5i..5i+4 of the digest. */
  function Group(d: Digest, i: nat): bv8
    requires i < NAME_LEN
  {
    FiveBits(Bit(d, 5 * i + 0), Bit(d, 5 * i + 1), Bit(d, 5 * i + 2), Bit(d, 5 * i + 3), Bit(d, 5 * i + 4))
  }

  lemma GroupBelow32(d: Digest, i: nat)
    requires i < NAME_LEN
    ensures Group(d, i) < 32
  {
    FiveBitsKeepsEachBit(Bit(d, 5 * i + 0), Bit(d, 5 * i + 1), Bit(d, 5 * i + 2), Bit(d, 5 * i + 3), Bit(d, 5 * i + 4));
  }

  function Symbol(d: Digest, i: nat): char
    requires i < NAME_LEN
  {
    GroupBelow32(d, i);
    ALPHABET[Group(d, i) as nat]
  }

  function NameOf(d: Digest): (name: string)
    ensures |name| == NAME_LEN
  {
    seq(NAME_LEN, i requires 0 <= i < NAME_LEN => Symbol(d, i))
  }

  function Weight(bit: bool, weight: nat): nat {
    if bit then weight else 0
  }

  lemma FiveBitsValue(b0: bool, b1: bool, b2: bool, b3: bool, b4: bool)
    ensures FiveBits(b0, b1, b2, b3, b4) as nat
            == Weight(b0, 16) + Weight(b1, 8) + Weight(b2, 4) + Weight(b3, 2) + Weight(b4, 1)
  {
  }

  lemma BitOfByte(d: Digest, k: nat)
    requires k < 256
    ensures Bit(d, k) <==> (d[k / 8] >> (7 - k % 8)) % 2 == 1
  {
  }

  /** The character for five bits, the first of weight sixteen: `a` to `z`, then `2` to `7`. */
  lemma NameCharacter(d: Digest, i: nat)
    requires i < NAME_LEN
    ensures
      var value := Weight(Bit(d, 5 * i), 16) + Weight(Bit(d, 5 * i + 1), 8) + Weight(Bit(d, 5 * i + 2), 4)
                   + Weight(Bit(d, 5 * i + 3), 2) + Weight(Bit(d, 5 * i + 4), 1);
      NameOf(d)[i] as int == if value < 26 then 'a' as int + value else '2' as int + value - 26
  {
    FiveBitsValue(Bit(d, 5 * i), Bit(d, 5 * i + 1), Bit(d, 5 * i + 2), Bit(d, 5 * i + 3), Bit(d, 5 * i + 4));
    GroupBelow32(d, i);
    hide Bit, FiveBits;
    assert forall x: nat :: x < 26 ==> ALPHABET[x] as int == 97 + x;
    assert forall x: nat :: 26 <= x < 32 ==> ALPHABET[x] as int == 24 + x;
  }

  lemma AlphabetInjective(m: nat, n: nat)
    requires m < 32 && n < 32 && ALPHABET[m] == ALPHABET[n]
    ensures m == n
  {
    assert forall x: nat :: x < 26 ==> ALPHABET[x] as int == 97 + x;
    assert forall x: nat :: 26 <= x < 32 ==> ALPHABET[x] as int == 24 + x;
  }

  /** Two digests share a name exactly when their first 75 bits agree. */
  lemma NameKeepsExactly75Bits(a: Digest, b: Digest)
    ensures NameOf(a) == NameOf(b) <==> forall k: nat :: k < NAME_BITS ==> Bit(a, k) == Bit(b, k)
  {
    hide ByteBit, FiveBits;
    if NameOf(a) == NameOf(b) {
      forall k: nat | k < NAME_BITS ensures Bit(a, k) == Bit(b, k) {
        SameNameSameBit(a, b, k / 5, k % 5);
      }
    }
    if forall k: nat :: k < NAME_BITS ==> Bit(a, k) == Bit(b, k) {
      forall i: nat | i < NAME_LEN ensures NameOf(a)[i] == NameOf(b)[i] {
        assert Group(a, i) == Group(b, i);
      }
    }
  }

  lemma SameNameSameBit(a: Digest, b: Digest, i: nat, j: nat)
    requires NameOf(a) == NameOf(b) && i < NAME_LEN && j < 5
    ensures Bit(a, 5 * i + j) == Bit(b, 5 * i + j)
  {
    assert NameOf(a)[i] == NameOf(b)[i];
    AlphabetInjective(Group(a, i) as nat, Group(b, i) as nat);
    GroupBelow32(a, i);
    GroupBelow32(b, i);
    FiveBitsKeepsEachBit(Bit(a, 5 * i + 0), Bit(a, 5 * i + 1), Bit(a, 5 * i + 2), Bit(a, 5 * i + 3), Bit(a, 5 * i + 4));
    FiveBitsKeepsEachBit(Bit(b, 5 * i + 0), Bit(b, 5 * i + 1), Bit(b, 5 * i + 2), Bit(b, 5 * i + 3), Bit(b, 5 * i + 4));
  }

  /** The bit of a two-byte window at position `i`. */
  function WindowBit(high: bv8, low: bv8, i: nat): bool
    requires i < 16
  {
    if i < 8 then ByteBit(high, i) else ByteBit(low, i - 8)
  }

  /** The five bits of a two-byte window that start at `shift`. */
  function WindowGroup(high: bv8, low: bv8, shift: nat): bv8
    requires shift < 8
  {
    FiveBits(WindowBit(high, low, shift + 0), WindowBit(high, low, shift + 1), WindowBit(high, low, shift + 2),
             WindowBit(high, low, shift + 3), WindowBit(high, low, shift + 4))
  }

  /** The loop's shift-and-or step keeps those five bits, for every alignment. */
  lemma TopFive(high: bv8, low: bv8, shift: nat)
    requires shift < 8
    ensures
      var value := high << shift;
      (if shift > 3 then value | (low >> (8 - shift)) else value) >> 3 == WindowGroup(high, low, shift)
  {
    match shift
    case 0 =>
    case 1 =>
    case 2 =>
    case 3 =>
    case 4 =>
    case 5 =>
    case 6 =>
    case _ =>
  }

  lemma BitInWindow(d: Digest, k: nat, j: nat, low: bv8)
    requires k < NAME_BITS && j < 5 && (k % 8 > 3 ==> low == d[k / 8 + 1])
    ensures Bit(d, k + j) == WindowBit(d[k / 8], low, k % 8 + j)
  {
    hide ByteBit;
    var at, shift := k / 8, k % 8;
    assert k + j == 8 * at + (shift + j);
    if shift + j < 8 {
      assert (k + j) / 8 == at && (k + j) % 8 == shift + j;
    } else {
      assert (k + j) / 8 == at + 1 && (k + j) % 8 == shift + j - 8;
    }
  }

  lemma GroupIsWindowGroup(d: Digest, i: nat, low: bv8)
    requires i < NAME_LEN && (5 * i % 8 > 3 ==> low == d[5 * i / 8 + 1])
    ensures Group(d, i) == WindowGroup(d[5 * i / 8], low, 5 * i % 8)
  {
    hide ByteBit, FiveBits;
    BitInWindow(d, 5 * i, 0, low);
    BitInWindow(d, 5 * i, 1, low);
    BitInWindow(d, 5 * i, 2, low);
    BitInWindow(d, 5 * i, 3, low);
    BitInWindow(d, 5 * i, 4, low);
  }

  method RecordName(digest: Digest) returns (name: string)
    ensures name == NameOf(digest)
  {
    hide ByteBit, FiveBits, WindowGroup, Group;
    name := "";
    for index := 0 to NAME_LEN
      invariant name == NameOf(digest)[..index]
    {
      var bit := index * 5;
      var at := bit / 8;
      var shift := bit % 8;
      var value := digest[at] << shift;
      if shift > 3 {
        value := value | (digest[at + 1] >> (8 - shift));
      }
      ghost var low := if shift > 3 then digest[at + 1] else 0;
      TopFive(digest[at], low, shift);
      GroupIsWindowGroup(digest, index, low);
      assert value >> 3 == Group(digest, index);
      GroupBelow32(digest, index);
      name := name + [ALPHABET[(value >> 3) as nat]];
    }
  }
}
