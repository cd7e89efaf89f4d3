/** The eight validated session slots that let a write skip the flash read. */
module SessionSlot {
  import opened Prelude
  import opened Records

  datatype Slot = Slot(name: Name, key: Bytes)

  const CAPACITY := 8

  ghost predicate NamesDistinct(slots: seq<Slot>) {
    forall i, j :: 0 <= i < j < |slots| ==> slots[i].name != slots[j].name
  }

  /** The key cached for a physical name. */
  ghost function KeyAt(slots: seq<Slot>, name: Name): Option<Bytes> {
    if exists i :: 0 <= i < |slots| && slots[i].name == name then
      var i :| 0 <= i < |slots| && slots[i].name == name;
      Some(slots[i].key)
    else None
  }

  /** The slots after remembering `name`: at most eight, most recently remembered last. */
  ghost function Remembered(slots: seq<Slot>, name: Name, key: Bytes): seq<Slot> {
    var others := WithoutName(slots, name);
    (if |others| == CAPACITY then others[1..] else others) + [Slot(name, key)]
  }

  ghost function WithoutName(slots: seq<Slot>, name: Name): seq<Slot> {
    if slots == [] then []
    else if slots[0].name == name then slots[1..]
    else [slots[0]] + WithoutName(slots[1..], name)
  }

  lemma {:induction false} WithoutNameAt(slots: seq<Slot>, name: Name, i: nat)
    requires i < |slots| && slots[i].name == name && forall j :: 0 <= j < i ==> slots[j].name != name
    ensures WithoutName(slots, name) == slots[..i] + slots[i + 1..]
  {
    if i == 0 {
    } else {
      WithoutNameAt(slots[1..], name, i - 1);
    }
  }

  lemma {:induction false} WithoutAbsentName(slots: seq<Slot>, name: Name)
    requires forall j :: 0 <= j < |slots| ==> slots[j].name != name
    ensures WithoutName(slots, name) == slots
  {
    if slots != [] {
      WithoutAbsentName(slots[1..], name);
    }
  }

  lemma {:induction false} WithoutNameKeepsOthers(slots: seq<Slot>, name: Name)
    requires NamesDistinct(slots)
    ensures NamesDistinct(WithoutName(slots, name)) && |WithoutName(slots, name)| <= |slots|
    ensures forall s :: s in WithoutName(slots, name) <==> s in slots && s.name != name
  {
    if slots != [] {
      var first, rest := slots[0], slots[1..];
      assert slots == [first] + rest;
      assert forall s | s in rest :: s.name != first.name;
      if first.name != name {
        WithoutNameKeepsOthers(rest, name);
        assert WithoutName(slots, name) == [first] + WithoutName(rest, name);
        hide *;
        DistinctWithFirst(first, rest, WithoutName(rest, name), name);
      }
    }
  }

  lemma DistinctWithFirst(first: Slot, rest: seq<Slot>, others: seq<Slot>, name: Name)
    requires NamesDistinct(others) && first.name != name
    requires forall s :: s in rest ==> s.name != first.name
    requires forall s :: s in others <==> s in rest && s.name != name
    ensures NamesDistinct([first] + others)
    ensures forall s :: s in [first] + others <==> s in [first] + rest && s.name != name
  {
    assert forall i | 0 <= i < |others| :: others[i] in others;
  }

  /** Remembering adds its own slot and otherwise only forgets: never more than eight, one per name. */
  lemma RememberedOnlyForgets(slots: seq<Slot>, name: Name, key: Bytes)
    requires NamesDistinct(slots) && |slots| <= CAPACITY
    ensures
      var next := Remembered(slots, name, key);
      && NamesDistinct(next) && |next| <= CAPACITY
      && Slot(name, key) in next
      && forall s :: s in next ==> s == Slot(name, key) || (s in slots && s.name != name)
  {
    WithoutNameKeepsOthers(slots, name);
    var others := WithoutName(slots, name);
    assert forall i | 0 <= i < |others| :: others[i] in others;
  }

  /** With room left nothing is forgotten; a full cache forgets only its oldest slot. */
  lemma RememberedKeepsRecent(slots: seq<Slot>, name: Name, key: Bytes, s: Slot)
    requires NamesDistinct(slots) && |slots| <= CAPACITY
    requires s in slots && s.name != name
    requires |slots| < CAPACITY || s != slots[0] || KeyAt(slots, name).Some?
    ensures s in Remembered(slots, name, key)
  {
    WithoutNameKeepsOthers(slots, name);
    var others := WithoutName(slots, name);
    if |others| == CAPACITY {
      if exists i :: 0 <= i < |slots| && slots[i].name == name {
        var i :| 0 <= i < |slots| && slots[i].name == name;
        WithoutNameAt(slots, name, i);
        assert false;
      }
      WithoutAbsentName(slots, name);
      assert others == [slots[0]] + others[1..];
    }
  }

  class SessionSlots {
    var slots: seq<Slot>

    ghost predicate Valid()
      reads this
    {
      |slots| <= CAPACITY && NamesDistinct(slots)
    }

    constructor ()
      ensures Valid() && slots == []
    {
      slots := [];
    }

    /** `None` for an uncached name, else whether the cached key is this one. */
    method Matches(name: Name, key: Bytes) returns (r: Option<bool>)
      requires Valid()
      ensures r == match KeyAt(slots, name) case None => None case Some(k) => Some(k == key)
    {
      for i := 0 to |slots|
        invariant forall j :: 0 <= j < i ==> slots[j].name != name
      {
        if slots[i].name == name {
          return Some(slots[i].key == key);
        }
      }
      return None;
    }

    method Remember(name: Name, key: Bytes)
      requires Valid()
      modifies this
      ensures Valid() && slots == Remembered(old(slots), name, key)
    {
      RememberedOnlyForgets(slots, name, key);
      ghost var before := slots;
      var i := 0;
      while i < |slots| && slots[i].name != name
        invariant 0 <= i <= |slots| && forall j :: 0 <= j < i ==> slots[j].name != name
      {
        i := i + 1;
      }
      if i < |slots| {
        WithoutNameAt(slots, name, i);
        slots := slots[..i] + slots[i + 1..];
      } else {
        WithoutAbsentName(slots, name);
      }
      assert slots == WithoutName(before, name);
      if |slots| == CAPACITY {
        slots := slots[1..];
      }
      slots := slots + [Slot(name, key)];
    }

    method Clear()
      modifies this
      ensures Valid() && slots == []
    {
      slots := [];
    }
  }
}
