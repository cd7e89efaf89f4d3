/** Vocabulary shared by every component: bytes, results and fixed-width integers. */
module Prelude {

  type byte = b: int | 0 <= b < 256

  type Bytes = seq<byte>

  type u32 = n: int | 0 <= n < 0x1_0000_0000

  /** Largest `usize` of the 32-bit targets the firmware runs on. */
  const USIZE_MAX: nat := 0xFFFF_FFFF

  const U64_LIMIT: nat := 0x1_0000_0000_0000_0000

  const CR: byte := 13
  const LF: byte := 10
  const CRLF: Bytes := [CR, LF]

  datatype Option<+T> = None | Some(value: T)

  /** `Io` is a fault of the medium (including a failed allocation); `Invalid` is a refusal by our own checks. */
  datatype Error = Io | Invalid

  datatype Result<+T> = Ok(value: T) | Err(error: Error) {
    predicate IsFailure() {
      Err?
    }

    function PropagateFailure<U>(): Result<U>
      requires Err?
    {
      Err(error)
    }

    function Extract(): T
      requires Ok?
    {
      value
    }

    function ToOption(): Option<T> {
      if Ok? then Some(value) else None
    }
  }

  function Min(a: int, b: int): int {
    if a <= b then a else b
  }

  function Max(a: int, b: int): int {
    if a >= b then a else b
  }

  /** Two bytes as a number, in the two byte orders the code uses. */
  function Le16(lo: byte, hi: byte): nat {
    lo as int + 256 * hi as int
  }

  function Be16(hi: byte, lo: byte): nat {
    256 * hi as int + lo as int
  }

  /** Little-endian image of a `u32`, as `to_le_bytes` produces it. */
  function LeBytes(n: u32): Bytes {
    [n % 256, n / 256 % 256, n / 256 / 256 % 256, n / 256 / 256 / 256]
  }

  function FromLeBytes(b: Bytes): u32
    requires |b| == 4
  {
    b[0] as int + 256 * (b[1] as int + 256 * (b[2] as int + 256 * b[3] as int))
  }

  lemma LeBytesRoundTrip(n: u32)
    ensures FromLeBytes(LeBytes(n)) == n
  {
  }

  /** The weights of the four bytes: the first counts ones, the last 2 to the 24. */
  lemma LeBytesWeights(n: u32)
    ensures
      var b := LeBytes(n);
      |b| == 4 && b[0] as int + 0x100 * b[1] as int + 0x1_0000 * b[2] as int + 0x100_0000 * b[3] as int == n
  {
    assert n / 256 == 256 * (n / 256 / 256) + n / 256 % 256;
    assert n / 256 / 256 == 256 * (n / 256 / 256 / 256) + n / 256 / 256 % 256;
  }

  lemma FromLeBytesRoundTrip(b: Bytes)
    requires |b| == 4
    ensures LeBytes(FromLeBytes(b)) == b
  {
    var high := b[2] as int + 256 * b[3] as int;
    var mid := b[1] as int + 256 * high;
    assert FromLeBytes(b) == b[0] as int + 256 * mid;
    assert FromLeBytes(b) / 256 == mid && mid / 256 == high;
  }

  /** No element occurs twice. */
  ghost predicate Distinct<T>(s: seq<T>) {
    forall i, j :: 0 <= i < j < |s| ==> s[i] != s[j]
  }

  ghost function Elements<T>(s: seq<T>): set<T> {
    set x | x in s
  }

  lemma ElementsAppend<T>(s: seq<T>, x: T)
    ensures Elements(s + [x]) == Elements(s) + {x}
  {
    assert (s + [x])[|s|] == x;
    assert forall y | y in s :: y in s + [x];
  }

  lemma {:induction false} DistinctCount<T>(s: seq<T>)
    requires Distinct(s)
    ensures |Elements(s)| == |s|
  {
    if s != [] {
      var rest, last := s[..|s| - 1], s[|s| - 1];
      assert s == rest + [last] && last !in rest;
      DistinctCount(rest);
      ElementsAppend(rest, last);
    }
  }

  /** The elements of a set, once each, in an order nobody may rely on. */
  method Enumerate<T(==)>(s: set<T>) returns (all: seq<T>)
    ensures Distinct(all) && Elements(all) == s && |all| == |s|
  {
    var left := s;
    all := [];
    while left != {}
      invariant left !! Elements(all) && left + Elements(all) == s && Distinct(all)
      decreases |left|
    {
      var x :| x in left;
      left := left - {x};
      ElementsAppend(all, x);
      all := all + [x];
    }
    DistinctCount(all);
  }

  lemma CardinalitySubset<T>(a: set<T>, b: set<T>)
    requires a <= b
    ensures |a| <= |b|
  {
    assert b == a + (b - a);
  }

  lemma RemovalCount<K, V>(m: map<K, V>, k: K)
    requires k in m
    ensures |m - {k}| == |m| - 1
  {
    assert m.Keys == (m - {k}).Keys + {k};
  }

  lemma UpdateCount<K, V>(m: map<K, V>, k: K, v: V)
    ensures |m[k := v]| == if k in m then |m| else |m| + 1
  {
    assert m[k := v].Keys == m.Keys + {k};
  }

  function Lookup<K, V>(m: map<K, V>, k: K): Option<V> {
    if k in m then Some(m[k]) else None
  }

  /** `a` holds a subset of the entries of `b`. */
  ghost predicate SubMap<K, V>(a: map<K, V>, b: map<K, V>) {
    a.Keys <= b.Keys && forall k :: k in a ==> a[k] == b[k]
  }
}
