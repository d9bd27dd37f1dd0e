/** The chat server's shared state and the three operations that change it
    (server.py): accepting a connection, broadcasting a message, and the
    cleanup when a connection ends; plus the per-connection receive loop
    and the accept loop that drive them.  Every one of these runs inside
    the single server lock, so each method here is one atomic step. */
module Server {
  import opened ClientList
  import opened Stream

  /** A received message: the raw bytes of one `recv`. */
  type Message = seq<bv8>

  /** The global `clients` list: the sockets a broadcast goes to. */
  class Registry {
    var clients: seq<ClientId>

    ghost predicate Valid()
      reads this
    {
      Distinct(clients)
    }

    /** The server starts with no clients. */
    constructor ()
      ensures Valid() && clients == []
    {
      clients := [];
    }

    /** A newly accepted socket is appended; entries already there keep
        their order.  `accept` never returns a socket that is still
        registered. */
    method Accept(c: ClientId)
      requires Valid() && c !in clients
      modifies this
      ensures Valid()
      ensures clients == old(clients) + [c]
    {
      clients := clients + [c];
    }

    /** `broadcast(message, sender)`: walks the live list with an index,
        skips the sender, calls `send` on every other client it reaches and
        removes a client whose `send` raises (`failing` says whose do).
        Returns the clients `send` was called on and those it succeeded
        for. */
    method Broadcast(sender: ClientId, failing: set<ClientId>) returns (attempted: seq<ClientId>, delivered: seq<ClientId>)
      requires Valid()
      modifies this
      ensures Valid()
      ensures Fanout(old(clients), sender, failing) == Fan(attempted, delivered, clients)
    {
      attempted, delivered := [], [];
      var i := 0;
      BroadcastLoopStart(clients, sender, failing);
      while i < |clients|
        invariant Distinct(clients)
        invariant BroadcastLoop(old(clients), clients, i, attempted, delivered, sender, failing)
        decreases |clients| + 1 - i
      {
        var c := clients[i];
        if c != sender {
          if c in failing {
            BroadcastLoopRemove(old(clients), clients, i, attempted, delivered, sender, failing);
            RemoveFirstAt(clients, i);
            attempted := attempted + [c];
            clients := RemoveFirst(clients, c);
          } else {
            BroadcastLoopKeep(old(clients), clients, i, attempted, delivered, sender, failing);
            attempted := attempted + [c];
            delivered := delivered + [c];
          }
        } else {
          BroadcastLoopKeep(old(clients), clients, i, attempted, delivered, sender, failing);
        }
        i := i + 1;
      }
      BroadcastLoopEnd(old(clients), clients, i, attempted, delivered, sender, failing);
    }

    /** The same broadcast iterating over a copy of the list, which is what
        its documentation promises: every client other than the sender is
        tried exactly once, in list order, and the clients whose send
        failed are removed. */
    method BroadcastSnapshot(sender: ClientId, failing: set<ClientId>) returns (attempted: seq<ClientId>, delivered: seq<ClientId>)
      requires Valid()
      modifies this
      ensures Valid()
      ensures attempted == Drop(old(clients), {sender})
      ensures delivered == Drop(old(clients), {sender} + failing)
      ensures clients == Drop(old(clients), failing - {sender})
    {
      var snapshot := clients;
      attempted, delivered := [], [];
      SnapshotLoopStart(snapshot, sender, failing);
      for k := 0 to |snapshot|
        invariant SnapshotLoop(snapshot, k, clients, attempted, delivered, sender, failing)
      {
        var c := snapshot[k];
        if c != sender && c in failing {
          SnapshotLoopRemove(snapshot, k, clients, attempted, delivered, sender, failing);
          attempted := attempted + [c];
          clients := RemoveFirst(clients, c);
        } else {
          SnapshotLoopKeep(snapshot, k, clients, attempted, delivered, sender, failing);
          if c != sender {
            attempted := attempted + [c];
            delivered := delivered + [c];
          }
        }
      }
      SnapshotLoopEnd(snapshot, clients, attempted, delivered, sender, failing);
    }

    /** Cleanup when a connection ends: the socket is removed if it is
        still registered, and the list is left as it was otherwise. */
    method Disconnect(c: ClientId)
      requires Valid()
      modifies this
      ensures Valid()
      ensures clients == Drop(old(clients), {c})
      ensures c !in clients
    {
      DropMembers(clients, {c});
      if c in clients {
        RemoveFirstIsDrop(clients, c);
        DropDistinct(clients, {c});
        clients := RemoveFirst(clients, c);
      } else {
        DropNothing(clients, {c});
      }
    }
  }

  /** The client list after `count` broadcasts by `me`, the k-th of which
      meets the send failures `failing(k)`. */
  function AfterBroadcasts(cs: seq<ClientId>, me: ClientId, count: nat, failing: nat -> set<ClientId>): seq<ClientId> {
    if count == 0 then cs
    else Fanout(AfterBroadcasts(cs, me, count - 1, failing), me, failing(count - 1)).kept
  }

  /** The first `count` broadcast passes of a session by `me`, in order. */
  function SessionFans(cs: seq<ClientId>, me: ClientId, count: nat, failing: nat -> set<ClientId>): seq<Fan> {
    if count == 0 then []
    else SessionFans(cs, me, count - 1, failing)
           + [Fanout(AfterBroadcasts(cs, me, count - 1, failing), me, failing(count - 1))]
  }

  /** The k-th broadcast of a session goes out from `me` over the list as
      the k broadcasts before it left it. */
  lemma {:induction false} SessionFansAt(cs: seq<ClientId>, me: ClientId, count: nat, failing: nat -> set<ClientId>, k: nat)
    requires k < count
    ensures |SessionFans(cs, me, count, failing)| == count
    ensures SessionFans(cs, me, count, failing)[k] == Fanout(AfterBroadcasts(cs, me, k, failing), me, failing(k))
  {
    var before := SessionFans(cs, me, count - 1, failing);
    var last := Fanout(AfterBroadcasts(cs, me, count - 1, failing), me, failing(count - 1));
    assert SessionFans(cs, me, count, failing) == before + [last];
    SessionFansLength(cs, me, count - 1, failing);
    if k < count - 1 {
      SessionFansAt(cs, me, count - 1, failing, k);
      assert (before + [last])[k] == before[k];
    } else {
      assert (before + [last])[k] == last;
    }
  }

  lemma {:induction false} SessionFansLength(cs: seq<ClientId>, me: ClientId, count: nat, failing: nat -> set<ClientId>)
    ensures |SessionFans(cs, me, count, failing)| == count
  {
    if count > 0 {
      SessionFansLength(cs, me, count - 1, failing);
    }
  }

  /** `handle_client`: receives chunks from `me` and broadcasts each
      non-empty one with `me` as sender, until an empty chunk or a receive
      error; then removes `me` from the list if it is still there.  Returns
      the messages relayed, in receive order, and who each one reached. */
  method Session(reg: Registry, me: ClientId, received: seq<Recv<bv8>>, failing: nat -> set<ClientId>)
    returns (relayed: seq<Message>, fans: seq<Fan>)
    requires reg.Valid()
    modifies reg
    ensures reg.Valid()
    ensures relayed == Delivered(received)
    ensures fans == SessionFans(old(reg.clients), me, |relayed|, failing)
    ensures reg.clients == Drop(AfterBroadcasts(old(reg.clients), me, |relayed|, failing), {me})
    ensures me !in reg.clients
  {
    relayed, fans := [], [];
    var i := 0;
    SessionStart(old(reg.clients), me, failing, received);
    while i < |received|
      invariant reg.Valid()
      invariant SessionSoFar(old(reg.clients), me, failing, received, i, relayed, fans, reg.clients)
    {
      match received[i]
      case ReadError =>
        break;
      case Data(message) =>
        if message == [] {
          break;
        }
        var attempted, delivered := reg.Broadcast(me, failing(i));
        SessionStep(old(reg.clients), me, failing, received, i, relayed, fans, Fan(attempted, delivered, reg.clients));
        relayed := relayed + [message];
        fans := fans + [Fan(attempted, delivered, reg.clients)];
        i := i + 1;
    }
    SessionStop(old(reg.clients), me, failing, received, i, relayed, fans, reg.clients);
    reg.Disconnect(me);
  }

  /** What a session has done after acting on its first `i` received
      chunks: relayed each of them as a broadcast by `me`, in order. */
  ghost predicate SessionSoFar(orig: seq<ClientId>, me: ClientId, failing: nat -> set<ClientId>,
                               received: seq<Recv<bv8>>, i: nat,
                               relayed: seq<Message>, fans: seq<Fan>, clients: seq<ClientId>)
  {
    && |relayed| == i
    && ReceivedSoFar(received, i, relayed)
    && clients == AfterBroadcasts(orig, me, i, failing)
    && fans == SessionFans(orig, me, i, failing)
  }

  lemma SessionStart(orig: seq<ClientId>, me: ClientId, failing: nat -> set<ClientId>, received: seq<Recv<bv8>>)
    ensures SessionSoFar(orig, me, failing, received, 0, [], [], orig)
  {
    DeliveredFirst(received);
  }

  lemma SessionStep(orig: seq<ClientId>, me: ClientId, failing: nat -> set<ClientId>,
                    received: seq<Recv<bv8>>, i: nat,
                    relayed: seq<Message>, fans: seq<Fan>, fan: Fan)
    requires i < |received| && received[i].Data? && received[i].payload != []
    requires SessionSoFar(orig, me, failing, received, i, relayed, fans, AfterBroadcasts(orig, me, i, failing))
    requires fan == Fanout(AfterBroadcasts(orig, me, i, failing), me, failing(i))
    ensures SessionSoFar(orig, me, failing, received, i + 1, relayed + [received[i].payload], fans + [fan], fan.kept)
  {
    DeliveredNext(received, i, relayed);
  }

  lemma SessionStop(orig: seq<ClientId>, me: ClientId, failing: nat -> set<ClientId>,
                    received: seq<Recv<bv8>>, i: nat,
                    relayed: seq<Message>, fans: seq<Fan>, clients: seq<ClientId>)
    requires SessionSoFar(orig, me, failing, received, i, relayed, fans, clients)
    requires i == |received| || received[i] == ReadError || received[i] == Data([])
    ensures relayed == Delivered(received)
  {
    DeliveredDone(received, i, relayed);
  }

  /** The accept loop of `start_server`: each accepted socket is appended
      in the order the connections arrive. */
  method Listen(reg: Registry, incoming: seq<ClientId>)
    requires reg.Valid()
    requires Distinct(incoming)
    requires forall k :: 0 <= k < |incoming| ==> incoming[k] !in reg.clients
    modifies reg
    ensures reg.Valid()
    ensures reg.clients == old(reg.clients) + incoming
  {
    for k := 0 to |incoming|
      invariant reg.Valid()
      invariant reg.clients == old(reg.clients) + incoming[..k]
    {
      assert incoming[k] !in incoming[..k];
      reg.Accept(incoming[k]);
      assert incoming[..k + 1] == incoming[..k] + [incoming[k]];
    }
    assert incoming[..|incoming|] == incoming;
  }

  /** A session's broadcasts never add anyone to the list and never remove
      the session's own socket: only the final cleanup does that. */
  lemma {:induction false} BroadcastsKeepSender(cs: seq<ClientId>, me: ClientId, count: nat, failing: nat -> set<ClientId>)
    requires Distinct(cs) && me in cs
    ensures var r := AfterBroadcasts(cs, me, count, failing);
      Distinct(r) && me in r
  {
    if count > 0 {
      BroadcastsKeepSender(cs, me, count - 1, failing);
      var before := AfterBroadcasts(cs, me, count - 1, failing);
      FanoutRemovesExactlyFailed(before, me, failing(count - 1));
      var r := Fanout(before, me, failing(count - 1));
      DropDistinct(before, Failed(r, failing(count - 1)));
    }
  }

  /** Disconnect cleanup is idempotent: doing it twice leaves the list as
      doing it once, and a socket no longer registered leaves it unchanged. */
  lemma DisconnectIdempotent(cs: seq<ClientId>, c: ClientId)
    ensures Drop(Drop(cs, {c}), {c}) == Drop(cs, {c})
    ensures c !in cs ==> Drop(cs, {c}) == cs
  {
    DropTwice(cs, {c});
    if c !in cs {
      DropNothing(cs, {c});
    }
  }
}
