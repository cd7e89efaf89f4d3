/** Trusted-contact tokens: two writers, each owning one side of an entry, and when their order does not matter. */
module TcTokens {
  import opened Prelude

  datatype Entry = Entry(token: Bytes, tokenTimestamp: int, senderTimestamp: Option<int>)

  datatype Op = Touch(at: int) | Receive(token: Bytes, timestamp: int)

  /** One upsert on a contact's entry. */
  function Apply(entry: Option<Entry>, op: Op): Entry {
    match op
    case Touch(at) =>
      if entry.None? then Entry([], at, Some(at))
      else
        var sender := entry.value.senderTimestamp;
        entry.value.(senderTimestamp := Some(if sender.None? then at else Max(sender.value, at)))
    case Receive(token, timestamp) =>
      if entry.None? then Entry(token, timestamp, None)
      else if entry.value.token != [] && timestamp < entry.value.tokenTimestamp then entry.value
      else entry.value.(token := token, tokenTimestamp := timestamp)
  }

  /** The entry of a contact after a run of upserts, starting from none. */
  function Run(ops: seq<Op>): Option<Entry> {
    if ops == [] then None else Some(Apply(Run(ops[..|ops| - 1]), ops[|ops| - 1]))
  }

  class TcTokenStore {
    var tokens: map<string, Entry>

    constructor ()
      ensures tokens == map[]
    {
      tokens := map[];
    }

    /** The sender bucket only moves forward; a contact never heard of gets a placeholder without a token. */
    method TouchSenderTimestamp(jid: string, at: int)
      modifies this
      ensures tokens == old(tokens)[jid := Apply(Lookup(old(tokens), jid), Touch(at))]
    {
      if jid in tokens {
        var entry := tokens[jid];
        var latest := if entry.senderTimestamp.None? then at else Max(entry.senderTimestamp.value, at);
        tokens := tokens[jid := entry.(senderTimestamp := Some(latest))];
      } else {
        tokens := tokens[jid := Entry([], at, Some(at))];
      }
    }

    /** Newer wins, but a placeholder never blocks a token. */
    method StoreReceived(jid: string, token: Bytes, timestamp: int)
      modifies this
      ensures tokens == old(tokens)[jid := Apply(Lookup(old(tokens), jid), Receive(token, timestamp))]
    {
      if jid in tokens {
        var entry := tokens[jid];
        if entry.token != [] && timestamp < entry.tokenTimestamp {
          assert tokens == tokens[jid := entry];
          return;
        }
        tokens := tokens[jid := entry.(token := token, tokenTimestamp := timestamp)];
      } else {
        tokens := tokens[jid := Entry(token, timestamp, None)];
      }
    }
  }

  // ----- What a run depends on -----

  predicate IsToken(op: Op) {
    op.Receive? && op.token != []
  }

  ghost predicate SenderIsMax(ops: seq<Op>, sender: Option<int>) {
    if sender.None? then forall op :: op in ops ==> !op.Touch?
    else Touch(sender.value) in ops && forall op :: op in ops && op.Touch? ==> op.at <= sender.value
  }

  lemma SplitLast(ops: seq<Op>)
    requires ops != []
    ensures ops == ops[..|ops| - 1] + [ops[|ops| - 1]]
    ensures forall op :: op in ops <==> op in ops[..|ops| - 1] || op == ops[|ops| - 1]
  {
  }

  /** The sender side is the largest touch, whatever else happened. */
  lemma {:induction false} SenderSide(ops: seq<Op>)
    requires ops != []
    ensures SenderIsMax(ops, Run(ops).value.senderTimestamp)
  {
    SplitLast(ops);
    if |ops| > 1 {
      SenderSide(ops[..|ops| - 1]);
    }
  }

  /** A token held was received with the timestamp it is held under. */
  lemma {:induction false} TokenWasReceived(ops: seq<Op>)
    requires ops != [] && Run(ops).value.token != []
    ensures Receive(Run(ops).value.token, Run(ops).value.tokenTimestamp) in ops
  {
    SplitLast(ops);
    var before := ops[..|ops| - 1];
    if |ops| > 1 && Run(before).value.token != [] {
      TokenWasReceived(before);
    }
  }

  /** `m` is the newest token: every other token received is older or the same, and so is every empty one. */
  ghost predicate Leads(ops: seq<Op>, m: Op) {
    && m in ops && IsToken(m)
    && forall op :: op in ops && op.Receive? ==>
         op.timestamp < m.timestamp || (op.timestamp == m.timestamp && op.token == m.token)
  }

  /** No token among `ops` is newer than `m`. */
  ghost predicate NoNewerToken(ops: seq<Op>, m: Op) {
    m.Receive? && forall op :: op in ops && IsToken(op) ==> op.timestamp <= m.timestamp
  }

  /** A receipt that no token received before outdates is taken. */
  lemma TakenLast(ops: seq<Op>, m: Op)
    requires NoNewerToken(ops, m)
    ensures
      var entry := Run(ops + [m]).value;
      entry.token == m.token && entry.tokenTimestamp == m.timestamp
  {
    assert (ops + [m])[..|ops|] == ops;
    if ops != [] && Run(ops).value.token != [] {
      TokenWasReceived(ops);
    }
  }

  lemma {:induction false} LeaderIsHeld(ops: seq<Op>, m: Op)
    requires Leads(ops, m)
    ensures Run(ops).value.token == m.token && Run(ops).value.tokenTimestamp == m.timestamp
  {
    SplitLast(ops);
    var before, last := ops[..|ops| - 1], ops[|ops| - 1];
    if m in before {
      LeaderIsHeld(before, m);
    } else {
      TakenLast(before, m);
    }
  }

  /** With empty tokens only, each receipt replaces the one before. */
  lemma {:induction false} LastReceiptIsHeld(ops: seq<Op>, timestamp: int)
    requires forall op :: op in ops ==> !IsToken(op)
    requires exists op :: op in ops && op.Receive?
    requires forall op :: op in ops && op.Receive? ==> op.timestamp == timestamp
    ensures Run(ops).value.token == [] && Run(ops).value.tokenTimestamp == timestamp
  {
    SplitLast(ops);
    var before, last := ops[..|ops| - 1], ops[|ops| - 1];
    assert last in ops && !IsToken(last);
    if exists op :: op in before && op.Receive? {
      LastReceiptIsHeld(before, timestamp);
    } else {
      TakenLast(before, last);
    }
  }

  /** Without any receipt the placeholder keeps the timestamp of the first touch. */
  lemma {:induction false} PlaceholderIsFirst(ops: seq<Op>)
    requires ops != [] && forall op :: op in ops ==> op.Touch?
    ensures Run(ops).value.token == [] && Run(ops).value.tokenTimestamp == ops[0].at
  {
    SplitLast(ops);
    if |ops| > 1 {
      PlaceholderIsFirst(ops[..|ops| - 1]);
    }
  }

  // ----- Exactly when the order does not matter -----

  /**
   * What the order cannot change: with some token received, one of them is newer than everything else received, empty
   * tokens included, but for its own repetitions; with empty tokens only, they carry one timestamp; with none, the
   * touches do.
   */
  ghost predicate Settled(ops: seq<Op>) {
    if exists op :: op in ops && IsToken(op) then exists m :: Leads(ops, m)
    else if exists op :: op in ops && op.Receive? then
      forall x, y :: x in ops && y in ops && x.Receive? && y.Receive? ==> x.timestamp == y.timestamp
    else forall x, y :: x in ops && y in ops ==> x == y
  }

  lemma SameMembers(a: seq<Op>, b: seq<Op>)
    requires multiset(a) == multiset(b)
    ensures forall op :: op in a <==> op in b
    ensures |a| == |b|
  {
    forall op ensures op in a <==> op in b {
      assert op in a <==> op in multiset(a);
      assert op in b <==> op in multiset(b);
    }
    assert |multiset(a)| == |a| && |multiset(b)| == |b|;
  }

  lemma SameSender(a: seq<Op>, b: seq<Op>, x: Option<int>, y: Option<int>)
    requires forall op :: op in a <==> op in b
    requires SenderIsMax(a, x) && SenderIsMax(b, y)
    ensures x == y
  {
  }

  /** Settled operations end in the same entry in every order. */
  lemma SettledConverges(a: seq<Op>, b: seq<Op>)
    requires a != [] && multiset(a) == multiset(b) && Settled(a)
    ensures Run(a) == Run(b)
  {
    SameMembers(a, b);
    SenderSide(a);
    SenderSide(b);
    SameSender(a, b, Run(a).value.senderTimestamp, Run(b).value.senderTimestamp);
    hide Run;
    if exists op :: op in a && IsToken(op) {
      var m :| Leads(a, m);
      LeaderIsHeld(a, m);
      LeaderIsHeld(b, m);
    } else if exists op :: op in a && op.Receive? {
      var r :| r in a && r.Receive?;
      LastReceiptIsHeld(a, r.timestamp);
      LastReceiptIsHeld(b, r.timestamp);
    } else {
      PlaceholderIsFirst(a);
      PlaceholderIsFirst(b);
      assert a[0] in a && b[0] in b && b[0] in a;
    }
  }

  /** The same operations with two chosen ones moved to the end, or to the front, in either order. */
  lemma TwoApart(ops: seq<Op>, x: Op, y: Op) returns (others: seq<Op>)
    requires x in ops && y in ops && x != y
    ensures multiset(others + [x, y]) == multiset(others + [y, x]) == multiset(ops)
    ensures multiset([x, y] + others) == multiset([y, x] + others) == multiset(ops)
    ensures forall op :: op in others ==> op in ops
  {
    var rest := TakeOut(ops, x);
    assert y in multiset(ops) && y in multiset(rest);
    others := TakeOut(rest, y);
    assert multiset([x, y]) == multiset{x, y} == multiset([y, x]);
    forall op | op in others ensures op in ops {
      assert op in multiset(others) && op in multiset(ops);
    }
  }

  lemma TakeOut(ops: seq<Op>, x: Op) returns (rest: seq<Op>)
    requires x in ops
    ensures multiset(ops) == multiset(rest) + multiset{x}
  {
    var i :| 0 <= i < |ops| && ops[i] == x;
    rest := ops[..i] + ops[i + 1..];
    assert ops == ops[..i] + ([x] + ops[i + 1..]);
  }

  /** Among tokens received, one is not outdated by any other. */
  lemma {:induction false} NewestToken(ops: seq<Op>) returns (m: Op)
    requires exists op :: op in ops && IsToken(op)
    ensures m in ops && IsToken(m) && NoNewerToken(ops, m)
  {
    SplitLast(ops);
    var before, last := ops[..|ops| - 1], ops[|ops| - 1];
    if exists op :: op in before && IsToken(op) {
      m := NewestToken(before);
      if IsToken(last) && last.timestamp > m.timestamp {
        m := last;
      }
    } else {
      m := last;
    }
  }

  /** Two receipts of which neither outdates the other, received last: the later one is held. */
  lemma LastOfTwoIsHeld(others: seq<Op>, x: Op, y: Op)
    requires x.Receive? && NoNewerToken(others + [x], y)
    ensures Run(others + [x, y]).value.token == y.token && Run(others + [x, y]).value.tokenTimestamp == y.timestamp
  {
    TakenLast(others + [x], y);
    assert others + [x] + [y] == others + [x, y];
  }

  /** Operations that are not settled have two orders that end differently. */
  lemma UnsettledDiverges(ops: seq<Op>) returns (a: seq<Op>, b: seq<Op>)
    requires ops != [] && !Settled(ops)
    ensures multiset(a) == multiset(ops) && multiset(b) == multiset(ops) && Run(a) != Run(b)
  {
    hide Run;
    if exists op :: op in ops && IsToken(op) {
      var m := NewestToken(ops);
      assert !Leads(ops, m);
      var v :| v in ops && v.Receive?
               && !(v.timestamp < m.timestamp || (v.timestamp == m.timestamp && v.token == m.token));
      var others := TwoApart(ops, v, m);
      a, b := others + [v, m], others + [m, v];
      LastOfTwoIsHeld(others, v, m);
      LastOfTwoIsHeld(others, m, v);
    } else if exists op :: op in ops && op.Receive? {
      var x, y :| x in ops && y in ops && x.Receive? && y.Receive? && x.timestamp != y.timestamp;
      var others := TwoApart(ops, x, y);
      a, b := others + [x, y], others + [y, x];
      LastOfTwoIsHeld(others, x, y);
      LastOfTwoIsHeld(others, y, x);
    } else {
      var x, y :| x in ops && y in ops && x != y;
      var others := TwoApart(ops, x, y);
      a, b := [x, y] + others, [y, x] + others;
      SameMembers(a, ops);
      SameMembers(b, ops);
      PlaceholderIsFirst(a);
      PlaceholderIsFirst(b);
    }
  }

  /** The order of the upserts does not matter exactly when they are settled. */
  lemma OrderIsIrrelevantIff(ops: seq<Op>)
    requires ops != []
    ensures Settled(ops) <==> forall other: seq<Op> :: multiset(other) == multiset(ops) ==> Run(other) == Run(ops)
  {
    hide Run;
    if Settled(ops) {
      forall other: seq<Op> | multiset(other) == multiset(ops) ensures Run(other) == Run(ops) {
        SettledConverges(ops, other);
      }
    } else {
      var a, b := UnsettledDiverges(ops);
    }
  }

  /** With a newest token the entry holds it, and the largest touch. */
  lemma NewestTokenAndLargestTouch(ops: seq<Op>, m: Op)
    requires Leads(ops, m)
    ensures
      var entry := Run(ops).value;
      entry.token == m.token && entry.tokenTimestamp == m.timestamp && SenderIsMax(ops, entry.senderTimestamp)
  {
    LeaderIsHeld(ops, m);
    SenderSide(ops);
  }

  /** Tokens that are all non-empty and unique per timestamp are settled; the touches are free. */
  lemma UniqueTokensAreSettled(ops: seq<Op>)
    requires exists op :: op in ops && op.Receive?
    requires forall op :: op in ops && op.Receive? ==> op.token != []
    requires forall x, y :: x in ops && y in ops && x.Receive? && y.Receive? && x.timestamp == y.timestamp ==> x == y
    ensures Settled(ops)
  {
    var r :| r in ops && r.Receive?;
    assert IsToken(r);
    var m := NewestToken(ops);
    assert Leads(ops, m);
  }

  /** An empty token received at the same time as a real one is enough to make the order matter. */
  lemma EmptyTokenMakesOrderMatter()
    ensures
      var token, empty := Receive([1], 5), Receive([], 5);
      Run([token, empty]) == Some(Entry([], 5, None)) && Run([empty, token]) == Some(Entry([1], 5, None))
  {
    var token, empty := Receive([1], 5), Receive([], 5);
    assert [token, empty][..1] == [token] && [empty, token][..1] == [empty];
    assert [token][..0] == [] && [empty][..0] == [];
    assert Run([token]) == Some(Entry([1], 5, None)) && Run([empty]) == Some(Entry([], 5, None));
  }
}
