/** How long a key survives in a capped mirror: until enough other keys have been used. */
module LruRecency {
  import opened Prelude
  import opened Lru

  datatype Event<K> = Used(key: K) | Deleted(key: K) | Cleared

  /** The use order of a mirror capped at `cap`, as writes, read hits, deletions and a reset leave it. */
  ghost function After<K>(order: seq<K>, event: Event<K>, cap: nat): seq<K> {
    match event
    case Used(key) => Trimmed(Touch(order, key), cap, None)
    case Deleted(key) => Without(order, key)
    case Cleared => []
  }

  ghost function AfterAll<K>(order: seq<K>, events: seq<Event<K>>, cap: nat): seq<K>
    decreases events
  {
    if events == [] then order else AfterAll(After(order, events[0], cap), events[1..], cap)
  }

  ghost function OthersUsed<K>(events: seq<Event<K>>, key: K): set<K> {
    if events == [] then {}
    else (if events[0].Used? && events[0].key != key then {events[0].key} else {}) + OthersUsed(events[1..], key)
  }

  /** The keys used more recently than `key`. */
  ghost function Younger<K>(order: seq<K>, key: K): seq<K> {
    if order == [] then []
    else if order[0] == key then order[1..]
    else Younger(order[1..], key)
  }

  /** `key` is present and everything more recent than it belongs to `others`. */
  ghost predicate OlderOnlyThan<K>(order: seq<K>, key: K, others: set<K>) {
    Distinct(order) && key in order && Elements(Younger(order, key)) <= others
  }

  lemma {:induction false} YoungerWithout<K>(order: seq<K>, key: K, x: K)
    requires Distinct(order) && key in order && x != key
    ensures key in Without(order, x)
    ensures Younger(Without(order, x), key) == Without(Younger(order, key), x)
  {
    var rest := order[1..];
    assert order == [order[0]] + rest;
    if order[0] == key {
    } else if order[0] == x {
      YoungerIsPart(rest, key);
    } else {
      YoungerWithout(rest, key, x);
      assert Without(order, x)[1..] == Without(rest, x);
    }
  }

  lemma {:induction false} YoungerIsPart<K>(order: seq<K>, key: K)
    requires Distinct(order)
    ensures Distinct(Younger(order, key)) && forall x :: x in Younger(order, key) ==> x in order
    ensures |Younger(order, key)| <= |order| && (key in order ==> |Younger(order, key)| < |order|)
  {
    if order != [] {
      assert order == [order[0]] + order[1..];
      YoungerIsPart(order[1..], key);
    }
  }

  lemma {:induction false} YoungerAppend<K>(order: seq<K>, key: K, x: K)
    requires key in order
    ensures Younger(order + [x], key) == Younger(order, key) + [x]
  {
    assert order == [order[0]] + order[1..];
    assert (order + [x])[1..] == order[1..] + [x];
    if order[0] != key {
      YoungerAppend(order[1..], key, x);
    }
  }

  lemma {:induction false} YoungerSuffix<K>(order: seq<K>, key: K, n: nat)
    requires Distinct(order) && key in order && |Younger(order, key)| < |order| - n
    ensures key in order[n..] && Younger(order[n..], key) == Younger(order, key)
  {
    if n > 0 {
      assert order == [order[0]] + order[1..];
      YoungerSuffix(order[1..], key, n - 1);
      assert order[1..][n - 1..] == order[n..];
    } else {
      assert order[0..] == order;
    }
  }

  lemma RemovalKeepsAge<K>(order: seq<K>, key: K, others: set<K>, x: K)
    requires OlderOnlyThan(order, key, others) && x != key
    ensures OlderOnlyThan(Without(order, x), key, others)
  {
    YoungerWithout(order, key, x);
    YoungerIsPart(order, key);
    WithoutElements(order, x);
    WithoutElements(Younger(order, key), x);
  }

  lemma AppendKeepsAge<K>(order: seq<K>, key: K, others: set<K>, x: K)
    requires OlderOnlyThan(order, key, others) && x !in order
    ensures OlderOnlyThan(order + [x], key, others + {x})
  {
    YoungerAppend(order, key, x);
    ElementsAppend(Younger(order, key), x);
  }

  lemma TrimKeepsAge<K>(order: seq<K>, key: K, others: set<K>, cap: nat)
    requires OlderOnlyThan(order, key, others) && |others| < cap
    ensures OlderOnlyThan(Trimmed(order, cap, None), key, others)
  {
    var n := Excess(order, cap);
    EvictShape(order, n, None);
    YoungerIsPart(order, key);
    DistinctCount(Younger(order, key));
    CardinalitySubset(Elements(Younger(order, key)), others);
    YoungerSuffix(order, key, n);
    assert Trimmed(order, cap, None) == order[n..];
  }

  lemma {:induction false} LastIsYoungest<K>(order: seq<K>, key: K)
    requires key !in order
    ensures Younger(order + [key], key) == []
  {
    if order != [] {
      assert (order + [key])[1..] == order[1..] + [key];
      LastIsYoungest(order[1..], key);
    }
  }

  lemma UseOfKeyMakesItYoungest<K>(order: seq<K>, key: K, cap: nat)
    requires Distinct(order) && cap > 0
    ensures OlderOnlyThan(After(order, Used(key), cap), key, {})
  {
    WithoutElements(order, key);
    var touched := Touch(order, key);
    assert key !in Without(order, key) by {
      assert key !in Elements(Without(order, key));
    }
    LastIsYoungest(Without(order, key), key);
    assert OlderOnlyThan(touched, key, {});
    TrimKeepsAge(touched, key, {}, cap);
  }

  lemma EventKeepsAge<K>(order: seq<K>, event: Event<K>, key: K, others: set<K>, cap: nat)
    requires OlderOnlyThan(order, key, others) && event != Deleted(key) && event != Cleared
    requires |others + (if event.Used? && event.key != key then {event.key} else {})| < cap
    ensures OlderOnlyThan(After(order, event, cap), key,
                          others + (if event.Used? && event.key != key then {event.key} else {}))
  {
    if event.key == key {
      UseOfKeyMakesItYoungest(order, key, cap);
    } else {
      RemovalKeepsAge(order, key, others, event.key);
      if event.Used? {
        WithoutElements(order, event.key);
        assert event.key !in Without(order, event.key) by {
          assert event.key !in Elements(Without(order, event.key));
        }
        AppendKeepsAge(Without(order, event.key), key, others, event.key);
        TrimKeepsAge(Touch(order, event.key), key, others + {event.key}, cap);
      } else {
        assert others + {} == others;
      }
    }
  }

  lemma {:induction false} StaysYoungEnough<K>(order: seq<K>, events: seq<Event<K>>, key: K, others: set<K>, cap: nat)
    requires OlderOnlyThan(order, key, others) && Deleted(key) !in events && Cleared !in events
    requires |others + OthersUsed(events, key)| < cap
    ensures key in AfterAll(order, events, cap)
    decreases events
  {
    if events != [] {
      var step := if events[0].Used? && events[0].key != key then {events[0].key} else {};
      assert others + OthersUsed(events, key) == (others + step) + OthersUsed(events[1..], key);
      CardinalitySubset(others + step, others + OthersUsed(events, key));
      EventKeepsAge(order, events[0], key, others, cap);
      StaysYoungEnough(After(order, events[0], cap), events[1..], key, others + step, cap);
    }
  }

  lemma EventKeepsDistinct<K>(order: seq<K>, event: Event<K>, cap: nat)
    requires Distinct(order)
    ensures Distinct(After(order, event, cap))
  {
    match event
    case Used(key) =>
      WithoutElements(order, key);
      assert key !in Without(order, key) by {
        assert key !in Elements(Without(order, key));
      }
      EvictShape(Touch(order, key), Excess(Touch(order, key), cap), None);
    case Deleted(key) =>
      WithoutElements(order, key);
    case Cleared =>
  }

  lemma {:induction false} EventsKeepDistinct<K>(order: seq<K>, events: seq<Event<K>>, cap: nat)
    requires Distinct(order)
    ensures Distinct(AfterAll(order, events, cap))
    decreases events
  {
    if events != [] {
      EventKeepsDistinct(order, events[0], cap);
      EventsKeepDistinct(After(order, events[0], cap), events[1..], cap);
    }
  }

  lemma {:induction false} AfterBoth<K>(order: seq<K>, events: seq<Event<K>>, more: seq<Event<K>>, cap: nat)
    ensures AfterAll(order, events + more, cap) == AfterAll(AfterAll(order, events, cap), more, cap)
    decreases events
  {
    if events == [] {
      assert events + more == more;
    } else {
      assert (events + more)[1..] == events[1..] + more;
      AfterBoth(After(order, events[0], cap), events[1..], more, cap);
    }
  }

  /**
   * Once used, a key stays mirrored through every later sequence of events, until it is deleted itself, everything is
   * cleared, or at least `cap` distinct other keys have been used. Whatever came before makes no difference.
   */
  lemma UsedKeyStaysMirrored<K>(order: seq<K>, events: seq<Event<K>>, i: nat, key: K, cap: nat)
    requires Distinct(order) && i < |events| && events[i] == Used(key)
    requires Deleted(key) !in events[i + 1..] && Cleared !in events[i + 1..]
    requires |OthersUsed(events[i + 1..], key)| < cap
    ensures key in AfterAll(order, events, cap)
  {
    var before, later := events[..i], events[i + 1..];
    var reached := AfterAll(order, before, cap);
    EventsKeepDistinct(order, before, cap);
    UseOfKeyMakesItYoungest(reached, key, cap);
    assert {} + OthersUsed(later, key) == OthersUsed(later, key);
    StaysYoungEnough(After(reached, Used(key), cap), later, key, {}, cap);
    assert events[i..] == [Used(key)] + later;
    AfterBoth(order, before, events[i..], cap);
    assert events == before + events[i..];
  }
}
