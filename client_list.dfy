/** The server's registry as a list of client sockets, and what one pass of
    the broadcast loop in server.py does to it.

    The broadcast loop iterates the live list with Python's list iterator
    (an index that advances by one per step) and calls `list.remove` on a
    client whose send raised.  Removing the current element shifts its
    successor into the current slot, so the index steps over that
    successor: it neither receives the message nor is it looked at in that
    pass.  `Fanout` states this outright. */
module ClientList {

  /** Sockets compare by identity; an id per socket is all the model needs. */
  type ClientId = int

  /** No socket is registered twice: `accept` always returns a new socket. */
  predicate Distinct(s: seq<ClientId>) {
    forall i, j :: 0 <= i < j < |s| ==> s[i] != s[j]
  }

  /** Python's `list.remove(x)`: drops the first occurrence of `x`.  The
      source calls it only on a client it knows to be in the list. */
  function RemoveFirst(s: seq<ClientId>, x: ClientId): (r: seq<ClientId>)
    requires x in s
    ensures |r| == |s| - 1
    ensures forall y :: y in r ==> y in s
  {
    if s[0] == x then s[1..] else [s[0]] + RemoveFirst(s[1..], x)
  }

  /** The clients of `s` not in `gone`, in their original order. */
  function Drop(s: seq<ClientId>, gone: set<ClientId>): seq<ClientId> {
    if s == [] then []
    else (if s[0] in gone then [] else [s[0]]) + Drop(s[1..], gone)
  }

  /** The result of one broadcast pass: the clients `send` was called on,
      the ones for which it succeeded, and the part of the list that is
      still registered afterwards. */
  datatype Fan = Fan(attempted: seq<ClientId>, delivered: seq<ClientId>, kept: seq<ClientId>)

  /** The pass over two consecutive stretches of the list. */
  function Join(a: Fan, b: Fan): Fan {
    Fan(a.attempted + b.attempted, a.delivered + b.delivered, a.kept + b.kept)
  }

  /** One pass of the broadcast loop over the not-yet-visited part `rest`
      of the client list, where `failing` holds the clients whose `send`
      raises.  The sender is skipped; a client whose send fails is removed,
      and the client right behind it is stepped over and kept. */
  function Fanout(rest: seq<ClientId>, sender: ClientId, failing: set<ClientId>): Fan
    decreases |rest|
  {
    if rest == [] then Fan([], [], [])
    else
      var c := rest[0];
      if c == sender then
        var r := Fanout(rest[1..], sender, failing);
        Fan(r.attempted, r.delivered, [c] + r.kept)
      else if c !in failing then
        var r := Fanout(rest[1..], sender, failing);
        Fan([c] + r.attempted, [c] + r.delivered, [c] + r.kept)
      else if |rest| == 1 then
        Fan([c], [], [])
      else
        var r := Fanout(rest[2..], sender, failing);
        Fan([c] + r.attempted, r.delivered, [rest[1]] + r.kept)
  }

  /** The pass the broadcast is meant to make, over a copy of the list:
      every client but the sender is tried once, in order; the message
      reaches those whose send succeeds; exactly the failed ones leave. */
  function SnapshotFan(cs: seq<ClientId>, sender: ClientId, failing: set<ClientId>): (r: Fan)
    ensures forall y :: y in r.attempted <==> y in cs && y != sender
    ensures forall y :: y in r.delivered <==> y in cs && y != sender && y !in failing
    ensures forall y :: y in r.kept <==> y in cs && (y == sender || y !in failing)
  {
    DropMembers(cs, {sender});
    DropMembers(cs, {sender} + failing);
    DropMembers(cs, failing - {sender});
    Fan(Drop(cs, {sender}), Drop(cs, {sender} + failing), Drop(cs, failing - {sender}))
  }

  /** The clients a pass removed: those it tried and whose send failed. */
  function Failed(r: Fan, failing: set<ClientId>): set<ClientId> {
    set y | y in r.attempted && y in failing
  }

  // ---------------------------------------------------------------------
  // List facts

  /** `Drop` keeps exactly the clients not in `gone`. */
  lemma {:induction false} DropMembers(s: seq<ClientId>, gone: set<ClientId>)
    ensures |Drop(s, gone)| <= |s|
    ensures forall y :: y in Drop(s, gone) ==> y in s && y !in gone
    ensures forall y :: y in s && y !in gone ==> y in Drop(s, gone)
  {
    if s != [] {
      DropMembers(s[1..], gone);
      assert s == [s[0]] + s[1..];
    }
  }

  lemma {:induction false} DistinctTail(s: seq<ClientId>, k: nat)
    requires Distinct(s) && k <= |s|
    ensures Distinct(s[k..])
    ensures forall j :: 0 <= j < k ==> s[j] !in s[k..]
  {
  }

  lemma {:induction false} RemoveFirstAt(s: seq<ClientId>, i: nat)
    requires Distinct(s) && i < |s|
    ensures RemoveFirst(s, s[i]) == s[..i] + s[i + 1..]
    ensures Distinct(s[..i] + s[i + 1..])
  {
    if i > 0 {
      assert s[1..][i - 1] == s[i];
      RemoveFirstAt(s[1..], i - 1);
      assert s[1..][..i - 1] == s[1..i];
      assert s[1..][i..] == s[i + 1..];
      assert [s[0]] + s[1..i] == s[..i];
    }
    var t := s[..i] + s[i + 1..];
    forall a, b | 0 <= a < b < |t| ensures t[a] != t[b] {
      var a' := if a < i then a else a + 1;
      var b' := if b < i then b else b + 1;
      assert t[a] == s[a'] && t[b] == s[b'] && a' < b';
    }
  }

  /** `list.remove` of a client that sits between two stretches. */
  lemma RemoveBetween(front: seq<ClientId>, x: ClientId, back: seq<ClientId>)
    requires Distinct(front + [x] + back)
    ensures RemoveFirst(front + [x] + back, x) == front + back
    ensures Distinct(front + back)
  {
    var s := front + [x] + back;
    assert s[|front|] == x;
    RemoveFirstAt(s, |front|);
    assert s[..|front|] == front && s[|front| + 1..] == back;
  }

  lemma {:induction false} DropAppend(a: seq<ClientId>, b: seq<ClientId>, gone: set<ClientId>)
    ensures Drop(a + b, gone) == Drop(a, gone) + Drop(b, gone)
  {
    if a == [] {
      assert a + b == b;
    } else {
      assert (a + b)[0] == a[0];
      assert (a + b)[1..] == a[1..] + b;
      DropAppend(a[1..], b, gone);
    }
  }

  /** Dropping clients none of which are present changes nothing. */
  lemma {:induction false} DropNothing(s: seq<ClientId>, gone: set<ClientId>)
    requires forall k :: 0 <= k < |s| ==> s[k] !in gone
    ensures Drop(s, gone) == s
  {
    if s != [] {
      assert s[0] !in gone;
      DropNothing(s[1..], gone);
      assert Drop(s, gone) == [s[0]] + Drop(s[1..], gone);
      assert s == [s[0]] + s[1..];
    }
  }

  /** Dropping the same clients a second time changes nothing. */
  lemma {:induction false} DropTwice(s: seq<ClientId>, gone: set<ClientId>)
    ensures Drop(Drop(s, gone), gone) == Drop(s, gone)
  {
    if s != [] {
      var head := if s[0] in gone then [] else [s[0]];
      DropTwice(s[1..], gone);
      DropAppend(head, Drop(s[1..], gone), gone);
    }
  }

  lemma {:induction false} DropDistinct(s: seq<ClientId>, gone: set<ClientId>)
    requires Distinct(s)
    ensures Distinct(Drop(s, gone))
  {
    if s != [] {
      DistinctTail(s, 1);
      DropDistinct(s[1..], gone);
      DropMembers(s[1..], gone);
      DistinctConcat(if s[0] in gone then [] else [s[0]], Drop(s[1..], gone));
    }
  }

  /** On a list without repeats, `list.remove` of a present client is
      dropping that client. */
  lemma {:induction false} RemoveFirstIsDrop(s: seq<ClientId>, x: ClientId)
    requires Distinct(s) && x in s
    ensures RemoveFirst(s, x) == Drop(s, {x})
  {
    if s[0] == x {
      DistinctTail(s, 1);
      DropNothing(s[1..], {x});
    } else {
      DistinctTail(s, 1);
      RemoveFirstIsDrop(s[1..], x);
    }
  }

  // ---------------------------------------------------------------------
  // What one broadcast pass does

  /** A broadcast never calls `send` on the sender, tries and keeps only
      clients that were registered, and succeeds for exactly the tried
      clients whose send does not fail. */
  lemma {:induction false} FanoutBasics(rest: seq<ClientId>, sender: ClientId, failing: set<ClientId>)
    ensures var r := Fanout(rest, sender, failing);
      && sender !in r.attempted
      && (forall y :: y in r.attempted ==> y in rest)
      && (forall y :: y in r.kept ==> y in rest)
      && r.delivered == Drop(r.attempted, failing)
    decreases |rest|
  {
    if rest != [] {
      var c := rest[0];
      var tail := if c == sender || c !in failing || |rest| == 1 then rest[1..] else rest[2..];
      FanoutBasics(tail, sender, failing);
      assert forall y :: y in tail ==> y in rest;
    }
  }

  /** What the broadcast loop has done when its index is at `i` of the
      current list `cs`: the part before the index is final, and the pass
      over `orig` is the work so far followed by a pass over the rest.  A
      removal at the last slot leaves the index one past the end. */
  ghost predicate BroadcastLoop(orig: seq<ClientId>, cs: seq<ClientId>, i: nat,
                                attempted: seq<ClientId>, delivered: seq<ClientId>,
                                sender: ClientId, failing: set<ClientId>)
  {
    && i <= |cs| + 1
    && var n := if i <= |cs| then i else |cs|;
       Fanout(orig, sender, failing)
         == Join(Fan(attempted, delivered, cs[..n]), Fanout(cs[n..], sender, failing))
  }

  lemma BroadcastLoopStart(orig: seq<ClientId>, sender: ClientId, failing: set<ClientId>)
    ensures BroadcastLoop(orig, orig, 0, [], [], sender, failing)
  {
    assert orig[..0] == [] && orig[0..] == orig;
  }

  lemma BroadcastLoopEnd(orig: seq<ClientId>, cs: seq<ClientId>, i: nat,
                         attempted: seq<ClientId>, delivered: seq<ClientId>,
                         sender: ClientId, failing: set<ClientId>)
    requires BroadcastLoop(orig, cs, i, attempted, delivered, sender, failing)
    requires i >= |cs|
    ensures Fanout(orig, sender, failing) == Fan(attempted, delivered, cs)
  {
    assert cs[..|cs|] == cs && cs[|cs|..] == [];
  }

  /** The loop moves past the sender or a client whose send succeeded. */
  lemma BroadcastLoopKeep(orig: seq<ClientId>, cs: seq<ClientId>, i: nat,
                          attempted: seq<ClientId>, delivered: seq<ClientId>,
                          sender: ClientId, failing: set<ClientId>)
    requires BroadcastLoop(orig, cs, i, attempted, delivered, sender, failing)
    requires i < |cs| && (cs[i] == sender || cs[i] !in failing)
    ensures var tried := if cs[i] == sender then [] else [cs[i]];
      BroadcastLoop(orig, cs, i + 1, attempted + tried, delivered + tried, sender, failing)
  {
    var tried := if cs[i] == sender then [] else [cs[i]];
    var rest := Fanout(cs[i + 1..], sender, failing);
    FanoutStepKeep(cs, i, sender, failing);
    assert cs[..i + 1] == cs[..i] + [cs[i]];
    JoinAssoc(Fan(attempted, delivered, cs[..i]), Fan(tried, tried, [cs[i]]), rest);
  }

  lemma JoinAssoc(a: Fan, b: Fan, c: Fan)
    ensures Join(Join(a, b), c) == Join(a, Join(b, c))
  {
    assert (a.attempted + b.attempted) + c.attempted == a.attempted + (b.attempted + c.attempted);
    assert (a.delivered + b.delivered) + c.delivered == a.delivered + (b.delivered + c.delivered);
    assert (a.kept + b.kept) + c.kept == a.kept + (b.kept + c.kept);
  }

  /** The loop removes a client whose send failed and moves its index on. */
  lemma BroadcastLoopRemove(orig: seq<ClientId>, cs: seq<ClientId>, i: nat,
                            attempted: seq<ClientId>, delivered: seq<ClientId>,
                            sender: ClientId, failing: set<ClientId>)
    requires BroadcastLoop(orig, cs, i, attempted, delivered, sender, failing)
    requires i < |cs| && cs[i] != sender && cs[i] in failing
    ensures BroadcastLoop(orig, cs[..i] + cs[i + 1..], i + 1, attempted + [cs[i]], delivered, sender, failing)
  {
    FanoutStepRemove(cs, i, sender, failing);
  }

  /** What the snapshot-driven broadcast has done after the first `k`
      clients of its copy `snapshot`: tried every non-sender among them,
      delivered to those whose send succeeded, and removed from the live
      list those whose send failed. */
  ghost predicate SnapshotLoop(snapshot: seq<ClientId>, k: nat, live: seq<ClientId>,
                               attempted: seq<ClientId>, delivered: seq<ClientId>,
                               sender: ClientId, failing: set<ClientId>)
  {
    && k <= |snapshot|
    && attempted == Drop(snapshot[..k], {sender})
    && delivered == Drop(snapshot[..k], {sender} + failing)
    && live == Drop(snapshot[..k], failing - {sender}) + snapshot[k..]
  }

  lemma SnapshotLoopStart(snapshot: seq<ClientId>, sender: ClientId, failing: set<ClientId>)
    ensures SnapshotLoop(snapshot, 0, snapshot, [], [], sender, failing)
  {
    assert snapshot[..0] == [] && snapshot[0..] == snapshot;
  }

  lemma SnapshotLoopEnd(snapshot: seq<ClientId>, live: seq<ClientId>,
                        attempted: seq<ClientId>, delivered: seq<ClientId>,
                        sender: ClientId, failing: set<ClientId>)
    requires Distinct(snapshot)
    requires SnapshotLoop(snapshot, |snapshot|, live, attempted, delivered, sender, failing)
    ensures attempted == Drop(snapshot, {sender})
    ensures delivered == Drop(snapshot, {sender} + failing)
    ensures live == Drop(snapshot, failing - {sender})
    ensures Distinct(live)
  {
    assert snapshot[..|snapshot|] == snapshot;
    assert snapshot[|snapshot|..] == [];
    DropDistinct(snapshot, failing - {sender});
  }

  /** The k-th client of the snapshot is the sender or its send succeeds. */
  lemma SnapshotLoopKeep(snapshot: seq<ClientId>, k: nat, live: seq<ClientId>,
                         attempted: seq<ClientId>, delivered: seq<ClientId>,
                         sender: ClientId, failing: set<ClientId>)
    requires SnapshotLoop(snapshot, k, live, attempted, delivered, sender, failing)
    requires k < |snapshot| && (snapshot[k] == sender || snapshot[k] !in failing)
    ensures var tried := if snapshot[k] == sender then [] else [snapshot[k]];
      SnapshotLoop(snapshot, k + 1, live, attempted + tried, delivered + tried, sender, failing)
  {
    var c := snapshot[k];
    SnapshotStep(snapshot, k, sender, failing);
    assert live == Drop(snapshot[..k], failing - {sender}) + [c] + snapshot[k + 1..];
  }

  /** The send to the k-th client of the snapshot fails: it is removed. */
  lemma SnapshotLoopRemove(snapshot: seq<ClientId>, k: nat, live: seq<ClientId>,
                           attempted: seq<ClientId>, delivered: seq<ClientId>,
                           sender: ClientId, failing: set<ClientId>)
    requires Distinct(snapshot)
    requires SnapshotLoop(snapshot, k, live, attempted, delivered, sender, failing)
    requires k < |snapshot| && snapshot[k] != sender && snapshot[k] in failing
    ensures snapshot[k] in live
    ensures SnapshotLoop(snapshot, k + 1, RemoveFirst(live, snapshot[k]),
                         attempted + [snapshot[k]], delivered, sender, failing)
  {
    SnapshotStep(snapshot, k, sender, failing);
    SnapshotRemove(snapshot, k, failing - {sender});
  }

  /** How one more client of a snapshot extends each of the three
      filtered views of it. */
  lemma SnapshotStep(snapshot: seq<ClientId>, k: nat, sender: ClientId, failing: set<ClientId>)
    requires k < |snapshot|
    ensures var c := snapshot[k];
      && Drop(snapshot[..k + 1], {sender}) == Drop(snapshot[..k], {sender}) + (if c == sender then [] else [c])
      && Drop(snapshot[..k + 1], {sender} + failing)
           == Drop(snapshot[..k], {sender} + failing) + (if c == sender || c in failing then [] else [c])
      && Drop(snapshot[..k + 1], failing - {sender})
           == Drop(snapshot[..k], failing - {sender}) + (if c != sender && c in failing then [] else [c])
      && snapshot[k..] == [c] + snapshot[k + 1..]
  {
    var c := snapshot[k];
    assert snapshot[..k + 1] == snapshot[..k] + [c];
    DropAppend(snapshot[..k], [c], {sender});
    DropAppend(snapshot[..k], [c], {sender} + failing);
    DropAppend(snapshot[..k], [c], failing - {sender});
  }

  lemma DistinctConcat(a: seq<ClientId>, b: seq<ClientId>)
    requires Distinct(a) && Distinct(b)
    requires forall y :: y in a ==> y !in b
    ensures Distinct(a + b)
  {
    var s := a + b;
    forall i, j | 0 <= i < j < |s| ensures s[i] != s[j] {
      if i < |a| && j >= |a| {
        assert s[i] in a && s[j] == b[j - |a|];
      }
    }
  }

  /** Removing the snapshot's k-th client from the live list, when it is
      among the clients to remove, leaves the live list one step further. */
  lemma SnapshotRemove(snapshot: seq<ClientId>, k: nat, gone: set<ClientId>)
    requires Distinct(snapshot) && k < |snapshot| && snapshot[k] in gone
    ensures var live := Drop(snapshot[..k], gone) + snapshot[k..];
      && snapshot[k] in live
      && RemoveFirst(live, snapshot[k]) == Drop(snapshot[..k], gone) + snapshot[k + 1..]
  {
    var front := Drop(snapshot[..k], gone);
    DistinctTail(snapshot, k);
    DropMembers(snapshot[..k], gone);
    assert Distinct(snapshot[..k]);
    DropDistinct(snapshot[..k], gone);
    assert forall y :: y in front ==> y in snapshot[..k];
    assert forall y :: y in snapshot[..k] ==> y !in snapshot[k..];
    DistinctConcat(front, snapshot[k..]);
    assert snapshot[k..] == [snapshot[k]] + snapshot[k + 1..];
    assert front + snapshot[k..] == front + [snapshot[k]] + snapshot[k + 1..];
    RemoveBetween(front, snapshot[k], snapshot[k + 1..]);
  }

  /** One step of the broadcast loop at index i of the current list `cs`
      when the client there is the sender or its send succeeds. */
  lemma FanoutStepKeep(cs: seq<ClientId>, i: nat, sender: ClientId, failing: set<ClientId>)
    requires i < |cs| && (cs[i] == sender || cs[i] !in failing)
    ensures var c := cs[i]; var tried := if c == sender then [] else [c];
      Fanout(cs[i..], sender, failing)
        == Join(Fan(tried, tried, [c]), Fanout(cs[i + 1..], sender, failing))
  {
    assert cs[i..][1..] == cs[i + 1..];
  }

  /** One step of the broadcast loop at index i of the current list `cs`
      when the send to the client there fails: it is removed, and the index
      moves on to i + 1 of the shortened list `cs'`, stepping over the
      client that moved into slot i. */
  lemma FanoutStepRemove(cs: seq<ClientId>, i: nat, sender: ClientId, failing: set<ClientId>)
    requires i < |cs| && cs[i] != sender && cs[i] in failing
    ensures var cs' := cs[..i] + cs[i + 1..];
      var n := if i + 1 <= |cs'| then i + 1 else |cs'|;
      && cs'[..n] == cs[..i] + cs'[i..n]
      && Fanout(cs[i..], sender, failing)
           == Join(Fan([cs[i]], [], cs'[i..n]), Fanout(cs'[n..], sender, failing))
  {
    var cs' := cs[..i] + cs[i + 1..];
    if i + 1 < |cs| {
      assert cs[i..][2..] == cs'[i + 1..];
      assert cs'[i..i + 1] == [cs[i..][1]];
    } else {
      assert cs'[..i] == cs[..i];
    }
  }

  /** The list shrinks by exactly the number of sends that failed. */
  lemma {:induction false} FanoutCount(rest: seq<ClientId>, sender: ClientId, failing: set<ClientId>)
    ensures var r := Fanout(rest, sender, failing);
      |r.delivered| <= |r.attempted| && |r.kept| == |rest| - (|r.attempted| - |r.delivered|)
    decreases |rest|
  {
    if rest != [] {
      if rest[0] == sender || rest[0] !in failing || |rest| == 1 {
        FanoutCount(rest[1..], sender, failing);
      } else {
        FanoutCount(rest[2..], sender, failing);
      }
    }
  }

  /** Each client is sent the message at most once per broadcast. */
  lemma {:induction false} FanoutAtMostOnce(rest: seq<ClientId>, sender: ClientId, failing: set<ClientId>)
    requires Distinct(rest)
    ensures Distinct(Fanout(rest, sender, failing).attempted)
  {
    if rest != [] {
      DistinctTail(rest, 1);
      if rest[0] == sender || rest[0] !in failing {
        FanoutAtMostOnce(rest[1..], sender, failing);
        FanoutBasics(rest[1..], sender, failing);
        var a := Fanout(rest[1..], sender, failing).attempted;
        DistinctConcat(if rest[0] == sender then [] else [rest[0]], a);
      } else if |rest| > 1 {
        DistinctTail(rest, 2);
        FanoutAtMostOnce(rest[2..], sender, failing);
        FanoutBasics(rest[2..], sender, failing);
        assert forall y :: y in rest[2..] ==> y in rest[1..];
        DistinctConcat([rest[0]], Fanout(rest[2..], sender, failing).attempted);
      }
    }
  }

  /** After a broadcast the list is the old list with exactly the clients
      whose send failed removed, in the old order; the sender, if
      registered, stays registered. */
  lemma {:induction false} FanoutRemovesExactlyFailed(rest: seq<ClientId>, sender: ClientId, failing: set<ClientId>)
    requires Distinct(rest)
    ensures var r := Fanout(rest, sender, failing);
      r.kept == Drop(rest, Failed(r, failing)) && (sender in rest ==> sender in r.kept)
  {
    var r := Fanout(rest, sender, failing);
    if rest != [] {
      var c := rest[0];
      DistinctTail(rest, 1);
      if c == sender || c !in failing {
        FanoutRemovesExactlyFailed(rest[1..], sender, failing);
        KeptWhenNotRemoved(rest, sender, failing);
      } else if |rest| > 1 {
        DistinctTail(rest, 2);
        FanoutRemovesExactlyFailed(rest[2..], sender, failing);
        KeptWhenRemoved(rest, sender, failing);
      }
    }
    FanoutBasics(rest, sender, failing);
    assert sender !in Failed(r, failing);
    DropMembers(rest, Failed(r, failing));
  }

  /** The step of FanoutRemovesExactlyFailed where the first client stays. */
  lemma {:induction false} KeptWhenNotRemoved(rest: seq<ClientId>, sender: ClientId, failing: set<ClientId>)
    requires rest != [] && (rest[0] == sender || rest[0] !in failing)
    requires var r' := Fanout(rest[1..], sender, failing);
      r'.kept == Drop(rest[1..], Failed(r', failing))
    ensures var r := Fanout(rest, sender, failing);
      r.kept == Drop(rest, Failed(r, failing))
  {
    var r := Fanout(rest, sender, failing);
    var r' := Fanout(rest[1..], sender, failing);
    var c := rest[0];
    FanoutBasics(rest, sender, failing);
    assert Failed(r, failing) == Failed(r', failing) by {
      assert forall y :: y in r.attempted && y in failing <==> y in r'.attempted && y in failing;
    }
    assert c !in Failed(r, failing);
    assert Drop(rest, Failed(r, failing)) == [c] + Drop(rest[1..], Failed(r, failing));
  }

  /** The step of FanoutRemovesExactlyFailed where the first client is
      removed and the second one is stepped over. */
  lemma {:induction false} KeptWhenRemoved(rest: seq<ClientId>, sender: ClientId, failing: set<ClientId>)
    requires Distinct(rest) && |rest| > 1 && rest[0] != sender && rest[0] in failing
    requires var r' := Fanout(rest[2..], sender, failing);
      r'.kept == Drop(rest[2..], Failed(r', failing))
    ensures var r := Fanout(rest, sender, failing);
      r.kept == Drop(rest, Failed(r, failing))
  {
    var r := Fanout(rest, sender, failing);
    var r' := Fanout(rest[2..], sender, failing);
    var c := rest[0];
    DistinctTail(rest, 2);
    FanoutBasics(rest[2..], sender, failing);
    var f, f' := Failed(r, failing), Failed(r', failing);
    assert f == f' + {c} by {
      assert r.attempted == [c] + r'.attempted;
    }
    assert rest[1] !in f;
    assert rest[1..][1..] == rest[2..];
    assert Drop(rest, f) == Drop(rest[1..], f);
    assert Drop(rest[1..], f) == [rest[1]] + Drop(rest[2..], f);
    DropSplit(rest[2..], f', c);
  }

  lemma {:induction false} DropSplit(s: seq<ClientId>, gone: set<ClientId>, c: ClientId)
    requires c !in s
    ensures Drop(s, gone + {c}) == Drop(s, gone)
  {
    if s != [] {
      assert s[0] != c;
      assert c !in s[1..] by { assert forall y :: y in s[1..] ==> y in s; }
      DropSplit(s[1..], gone, c);
    }
  }

  /** If no send fails, every client other than the sender receives exactly
      one copy, in list order, and the list is unchanged. */
  lemma {:induction false} FanoutWithoutFailures(rest: seq<ClientId>, sender: ClientId, failing: set<ClientId>)
    requires forall y :: y in rest ==> y !in failing
    ensures var r := Fanout(rest, sender, failing);
      r.attempted == Drop(rest, {sender}) && r.delivered == r.attempted && r.kept == rest
  {
    if rest != [] {
      var c := rest[0];
      assert c in rest;
      assert forall y :: y in rest[1..] ==> y in rest;
      FanoutWithoutFailures(rest[1..], sender, failing);
      assert c !in failing;
      assert rest == [c] + rest[1..];
    }
  }

  /** Removing two sets that agree on the list's clients removes the same
      clients. */
  lemma {:induction false} DropSame(s: seq<ClientId>, gone: set<ClientId>, gone': set<ClientId>)
    requires forall k :: 0 <= k < |s| ==> (s[k] in gone <==> s[k] in gone')
    ensures Drop(s, gone) == Drop(s, gone')
  {
    if s != [] {
      DropSame(s[1..], gone, gone');
    }
  }

  /** When no send fails, the broadcast as written and the intended pass
      over a copy coincide: the skip only ever follows a failure. */
  lemma FanoutIsSnapshotWithoutFailures(rest: seq<ClientId>, sender: ClientId, failing: set<ClientId>)
    requires forall y :: y in rest ==> y !in failing
    ensures Fanout(rest, sender, failing) == SnapshotFan(rest, sender, failing)
  {
    FanoutWithoutFailures(rest, sender, failing);
    DropSame(rest, {sender} + failing, {sender});
    DropNothing(rest, failing - {sender});
  }

  /** Every failed send, at position i, makes the loop step over the
      client at position i + 1: it is not sent the message, yet it stays
      registered. */
  lemma {:induction false} FanoutSkipsSuccessor(rest: seq<ClientId>, sender: ClientId, failing: set<ClientId>, i: nat)
    requires Distinct(rest) && i + 1 < |rest|
    requires rest[i] in Fanout(rest, sender, failing).attempted && rest[i] in failing
    ensures var r := Fanout(rest, sender, failing);
      rest[i + 1] !in r.attempted && rest[i + 1] in r.kept
    decreases |rest|
  {
    var c := rest[0];
    DistinctTail(rest, 1);
    DistinctTail(rest, 2);
    FanoutBasics(rest, sender, failing);
    if c == sender || c !in failing {
      assert i > 0;
      assert rest[1..][i - 1] == rest[i] && rest[1..][i] == rest[i + 1];
      FanoutSkipsSuccessor(rest[1..], sender, failing, i - 1);
    } else if i == 0 {
      FanoutBasics(rest[2..], sender, failing);
    } else {
      FanoutBasics(rest[2..], sender, failing);
      assert rest[i] in Fanout(rest[2..], sender, failing).attempted;
      assert i >= 2;
      assert rest[2..][i - 2] == rest[i] && rest[2..][i - 1] == rest[i + 1];
      FanoutSkipsSuccessor(rest[2..], sender, failing, i - 2);
    }
  }

  /** Three clients registered in the order 1, 2, 3; client 1 broadcasts and
      the send to client 2 fails.  Client 2 is removed, and client 3 is
      never sent the message. */
  lemma ScenarioSkipsThird()
    ensures Fanout([1, 2, 3], 1, {2}) == Fan([2], [], [1, 3])
  {
    assert [1, 2, 3][1..] == [2, 3];
    assert [2, 3][2..] == [];
  }
}
