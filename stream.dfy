/** What one receive call on a socket can yield, and the messages a
    "receive until the peer closes or the read fails" loop takes in.
    Both the server's per-connection loop and the client's receive thread
    have this shape. */
module Stream {

  /** The outcome of one `recv`: some bytes (possibly none, which is how
      the peer signals end of stream) or an exception. */
  datatype Recv<T> = Data(payload: seq<T>) | ReadError

  /** The messages a receive loop acts on: every received chunk, in order,
      up to (not including) the first empty chunk or read error. */
  function Delivered<T>(rs: seq<Recv<T>>): (d: seq<seq<T>>)
    ensures |d| <= |rs|
    ensures forall k :: 0 <= k < |d| ==> rs[k] == Data(d[k]) && d[k] != []
    ensures |d| < |rs| ==> rs[|d|] == ReadError || rs[|d|] == Data([])
  {
    if rs == [] then []
    else match rs[0]
      case ReadError => []
      case Data(p) => if p == [] then [] else [p] + Delivered(rs[1..])
  }

  /** A stream that never fails and never closes is relayed in full. */
  lemma {:induction false} DeliveredAll<T>(rs: seq<Recv<T>>)
    requires forall k :: 0 <= k < |rs| ==> rs[k].Data? && rs[k].payload != []
    ensures |Delivered(rs)| == |rs|
  {
    if rs != [] {
      DeliveredAll(rs[1..]);
    }
  }

  /** Whatever follows an end-of-stream or a read error is never acted on. */
  lemma {:induction false} DeliveredStopsAtEnd<T>(rs: seq<Recv<T>>, k: nat, rest: seq<Recv<T>>)
    requires k < |rs| && (rs[k] == ReadError || rs[k] == Data([]))
    ensures Delivered(rs + rest) == Delivered(rs)
  {
    if k > 0 {
      assert (rs + rest)[1..] == rs[1..] + rest;
      DeliveredStopsAtEnd(rs[1..], k - 1, rest);
    }
  }

  /** A receive loop that has looked at the first `i` chunks has acted on
      `before`, and acts on what is left of the stream next. */
  ghost predicate ReceivedSoFar<T>(rs: seq<Recv<T>>, i: nat, before: seq<seq<T>>) {
    i <= |rs| && Delivered(rs) == before + Delivered(rs[i..])
  }

  lemma DeliveredFirst<T>(rs: seq<Recv<T>>)
    ensures ReceivedSoFar(rs, 0, [])
  {
    assert rs[0..] == rs;
  }

  /** One more step of a receive loop: a non-empty chunk is acted on next. */
  lemma DeliveredNext<T>(rs: seq<Recv<T>>, i: nat, before: seq<seq<T>>)
    requires i < |rs| && rs[i].Data? && rs[i].payload != []
    requires ReceivedSoFar(rs, i, before)
    ensures ReceivedSoFar(rs, i + 1, before + [rs[i].payload])
  {
    var rest := rs[i..];
    assert rest[0] == rs[i] && rest[1..] == rs[i + 1..];
    assert Delivered(rest) == [rs[i].payload] + Delivered(rs[i + 1..]);
  }

  /** A receive loop that stops at the end of the input, an empty chunk or
      a read error has acted on everything it ever will. */
  lemma DeliveredDone<T>(rs: seq<Recv<T>>, i: nat, before: seq<seq<T>>)
    requires ReceivedSoFar(rs, i, before)
    requires i == |rs| || rs[i] == ReadError || rs[i] == Data([])
    ensures Delivered(rs) == before
  {
    if i == |rs| {
      assert rs[i..] == [];
    } else {
      assert rs[i..][0] == rs[i];
    }
  }
}
