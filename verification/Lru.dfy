/** The use order of a capped mirror stays a permutation of its keys, and trimming keeps a suffix of it. */
module Lru {
  import opened Prelude

  function Without<K(==)>(order: seq<K>, key: K): (rest: seq<K>)
    ensures key !in order ==> rest == order
  {
    if order == [] then []
    else if order[0] == key then order[1..]
    else [order[0]] + Without(order[1..], key)
  }

  function Touch<K(==)>(order: seq<K>, key: K): seq<K> {
    Without(order, key) + [key]
  }

  lemma {:induction false} WithoutAt<K>(order: seq<K>, i: nat)
    requires i < |order| && order[i] !in order[..i]
    ensures Without(order, order[i]) == order[..i] + order[i + 1..]
  {
    if i > 0 {
      assert order[1..][..i - 1] == order[1..i];
      assert order[0] in order[..i];
      assert order[i] !in order[1..i] by {
        assert forall x | x in order[1..i] :: x in order[..i];
      }
      WithoutAt(order[1..], i - 1);
      assert order == [order[0]] + order[1..];
    }
  }

  lemma {:induction false} WithoutConcat<K>(a: seq<K>, b: seq<K>, key: K)
    ensures key in a ==> Without(a + b, key) == Without(a, key) + b
    ensures key !in a ==> Without(a + b, key) == a + Without(b, key)
  {
    if a == [] {
      assert a + b == b;
    } else {
      var rest := a[1..];
      assert a == [a[0]] + rest;
      assert (a + b)[1..] == rest + b;
      if a[0] != key {
        WithoutConcat(rest, b, key);
      }
    }
  }

  lemma WithoutElements<K>(order: seq<K>, key: K)
    requires Distinct(order)
    ensures Distinct(Without(order, key))
    ensures Elements(Without(order, key)) == Elements(order) - {key}
  {
    if key in order {
      var i :| 0 <= i < |order| && order[i] == key;
      WithoutAt(order, i);
      RemovedAt(order, i);
    }
  }

  lemma RemovedAt<K>(order: seq<K>, i: nat)
    requires Distinct(order) && i < |order|
    ensures Distinct(order[..i] + order[i + 1..])
    ensures Elements(order[..i] + order[i + 1..]) == Elements(order) - {order[i]}
  {
    var rest := order[..i] + order[i + 1..];
    assert forall j | 0 <= j < |rest| :: rest[j] == order[if j < i then j else j + 1];
    forall j | 0 <= j < |order| && j != i ensures order[j] in rest {
      assert order[j] == rest[if j < i then j else j - 1];
    }
  }

  /** The order is a permutation of the map's keys. */
  ghost predicate Tracks<K, V>(order: seq<K>, m: map<K, V>) {
    Distinct(order) && Elements(order) == m.Keys
  }

  lemma TracksCount<K, V>(order: seq<K>, m: map<K, V>)
    requires Tracks(order, m)
    ensures |order| == |m|
  {
    DistinctCount(order);
    assert |m| == |m.Keys|;
  }

  lemma TouchTracks<K, V>(order: seq<K>, m: map<K, V>, key: K, value: V)
    requires Tracks(order, m)
    ensures Tracks(Touch(order, key), m[key := value])
  {
    WithoutElements(order, key);
    var rest := Without(order, key);
    assert key !in Elements(rest);
    ElementsAppend(rest, key);
    assert m[key := value].Keys == m.Keys + {key};
  }

  lemma RemoveTracks<K, V>(order: seq<K>, m: map<K, V>, key: K)
    requires Tracks(order, m)
    ensures Tracks(Without(order, key), m - {key})
  {
    WithoutElements(order, key);
  }

  /** The order once the oldest `n` keys have been dropped one by one, all but the protected one. */
  ghost function Evict<K>(order: seq<K>, n: nat, protected: Option<K>): seq<K>
    requires n <= |order|
  {
    if n == 0 then order
    else
      var before := Evict(order, n - 1, protected);
      if Some(order[n - 1]) == protected then before else Without(before, order[n - 1])
  }

  /** The mirror once the same keys have been dropped. */
  ghost function Kept<K, V>(m: map<K, V>, order: seq<K>, n: nat, protected: Option<K>): map<K, V>
    requires n <= |order|
  {
    if n == 0 then m
    else
      var before := Kept(m, order, n - 1, protected);
      if Some(order[n - 1]) == protected then before else before - {order[n - 1]}
  }

  ghost function Excess<K>(order: seq<K>, cap: nat): nat {
    if |order| <= cap then 0 else |order| - cap
  }

  ghost function Trimmed<K>(order: seq<K>, cap: nat, protected: Option<K>): seq<K> {
    Evict(order, Excess(order, cap), protected)
  }

  /** Trimming keeps the youngest keys in their order, after the protected one if that was older. */
  lemma {:induction false} EvictShape<K>(order: seq<K>, n: nat, protected: Option<K>)
    requires n <= |order| && Distinct(order)
    ensures Evict(order, n, protected)
            == (if protected.Some? && protected.value in order[..n] then [protected.value] else []) + order[n..]
  {
    if n > 0 {
      EvictShape(order, n - 1, protected);
      assert order[..n] == order[..n - 1] + [order[n - 1]];
      assert order[n - 1..] == [order[n - 1]] + order[n..];
      if Some(order[n - 1]) == protected {
        assert order[n - 1] !in order[..n - 1];
      } else {
        WithoutAt(order[n - 1..], 0);
        hide Without;
        if protected.Some? && protected.value in order[..n - 1] {
          WithoutConcat([protected.value], order[n - 1..], order[n - 1]);
        }
      }
    }
  }

  /** What remains is a permutation of the keys that remain. */
  lemma {:induction false} EvictTracks<K, V>(order: seq<K>, m: map<K, V>, n: nat, protected: Option<K>)
    requires n <= |order| && Tracks(order, m)
    ensures Tracks(Evict(order, n, protected), Kept(m, order, n, protected)) && SubMap(Kept(m, order, n, protected), m)
  {
    if n > 0 {
      EvictTracks(order, m, n - 1, protected);
      RemoveTracks(Evict(order, n - 1, protected), Kept(m, order, n - 1, protected), order[n - 1]);
    }
  }

  lemma ProtectedIsKept<K, V>(order: seq<K>, m: map<K, V>, n: nat, key: K)
    requires n <= |order| && key in m
    ensures key in Kept(m, order, n, Some(key))
  {
    if n > 0 {
      ProtectedIsKept(order, m, n - 1, key);
    }
  }

  /** What trimming guarantees: a permutation of what is left, the protected key kept, and the size bound. */
  lemma TrimKeeps<K, V>(order: seq<K>, m: map<K, V>, cap: nat, protected: Option<K>)
    requires Tracks(order, m)
    ensures
      var next, rest := Trimmed(order, cap, protected), Kept(m, order, Excess(order, cap), protected);
      && Tracks(next, rest) && SubMap(rest, m)
      && (protected.Some? && protected.value in m ==> protected.value in rest)
      && |rest| == |next| <= (if protected.Some? then cap + 1 else cap)
      && (|m| <= cap ==> rest == m)
  {
    var n := Excess(order, cap);
    TracksCount(order, m);
    EvictTracks(order, m, n, protected);
    EvictShape(order, n, protected);
    TracksCount(Evict(order, n, protected), Kept(m, order, n, protected));
    if protected.Some? && protected.value in m {
      ProtectedIsKept(order, m, n, protected.value);
    }
  }

  /** The youngest `cap` keys. */
  function Youngest<K>(order: seq<K>, cap: nat): (rest: seq<K>)
    ensures |rest| == Min(|order|, cap)
  {
    if |order| <= cap then order else order[|order| - cap..]
  }

  /** With nothing to protect, trimming keeps exactly the youngest; in any case it keeps as many as the cap allows. */
  lemma TrimmedIsYoungest<K>(order: seq<K>, cap: nat, protected: Option<K>)
    requires Distinct(order)
    ensures Trimmed(order, cap, None) == Youngest(order, cap)
    ensures |Trimmed(order, cap, protected)| >= Min(|order|, cap)
  {
    EvictShape(order, Excess(order, cap), None);
    EvictShape(order, Excess(order, cap), protected);
  }

  lemma YoungestGrows<K>(order: seq<K>, key: K, cap: nat)
    ensures Youngest(Youngest(order, cap) + [key], cap) == Youngest(order + [key], cap)
  {
  }

  /** A protected key that is also the most recently used costs no room. */
  lemma TrimWithProtectedLast<K>(order: seq<K>, cap: nat, key: K)
    requires Distinct(order) && cap > 0
    requires order != [] && order[|order| - 1] == key
    ensures |Trimmed(order, cap, Some(key))| <= cap
  {
    EvictShape(order, Excess(order, cap), Some(key));
  }

  /** The prefix of the order that is in excess of the cap. */
  function Overflow<K>(order: seq<K>, len: nat, cap: nat): seq<K> {
    if len > cap then order[..Min(len - cap, |order|)] else []
  }

  /** Evicts oldest-first down to `cap` entries, sparing `protected`. */
  method Trim<K(==), V>(order: seq<K>, m: map<K, V>, cap: nat, protected: Option<K>)
    returns (rest: seq<K>, kept: map<K, V>)
    requires |order| == |m|
    ensures rest == Trimmed(order, cap, protected)
    ensures kept == Kept(m, order, Excess(order, cap), protected)
  {
    var victims := Overflow(order, |m|, cap);
    kept, rest := m, order;
    for i := 0 to |victims|
      invariant rest == Evict(order, i, protected)
      invariant kept == Kept(m, order, i, protected)
    {
      if Some(victims[i]) != protected {
        kept := kept - {victims[i]};
        rest := Without(rest, victims[i]);
      }
    }
  }
}
