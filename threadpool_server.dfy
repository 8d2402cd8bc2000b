/**
 * The accept loop of `Server.run` in tugas-ets/threadpool_server.py. Its
 * per-connection loop `ProcessTheClient` is the one modelled in module
 * Framing.
 *
 * Each turn of the loop either accepts a connection and submits it to the
 * thread pool, or catches the exception `accept` raised, logs it and goes on
 * with the next turn. The pool's own queueing of submitted connections is
 * not modelled.
 */
module ThreadPoolServer {

  /** What one call of `accept` does. */
  datatype Accept<C> = Accepted(connection: C) | AcceptFailed(message: string)

  /** The connections among a run of accepts, in order. */
  function Connections<C>(accepts: seq<Accept<C>>): (connections: seq<C>)
    ensures |connections| <= |accepts|
  {
    if accepts == [] then []
    else (if accepts[0].Accepted? then [accepts[0].connection] else []) + Connections(accepts[1..])
  }

  /** The messages of the failed accepts, in order. */
  function Failures<C>(accepts: seq<Accept<C>>): (messages: seq<string>)
    ensures |messages| <= |accepts|
  {
    if accepts == [] then []
    else (if accepts[0].AcceptFailed? then [accepts[0].message] else []) + Failures(accepts[1..])
  }

  /** Every accept either reaches the pool or the log: none is lost, none counted twice. */
  lemma {:induction false} EveryAcceptAccountedFor<C>(accepts: seq<Accept<C>>)
    ensures |Connections(accepts)| + |Failures(accepts)| == |accepts|
  {
    if accepts != [] {
      EveryAcceptAccountedFor(accepts[1..]);
    }
  }

  /** The connections of two runs of accepts, one after the other. */
  lemma {:induction false} ConnectionsAppend<C>(a: seq<Accept<C>>, b: seq<Accept<C>>)
    ensures Connections(a + b) == Connections(a) + Connections(b)
  {
    if a == [] {
      assert a + b == b;
    } else {
      var head := if a[0].Accepted? then [a[0].connection] else [];
      assert (a + b)[0] == a[0];
      assert (a + b)[1..] == a[1..] + b;
      assert Connections(a + b) == head + Connections(a[1..] + b);
      ConnectionsAppend(a[1..], b);
      assert Connections(a) == head + Connections(a[1..]);
    }
  }

  /** A failed accept does not stop the loop: the connections after it are still submitted. */
  lemma FailureDoesNotStopLoop<C>(before: seq<Accept<C>>, message: string, after: seq<Accept<C>>)
    ensures Connections(before + [AcceptFailed(message)] + after) == Connections(before) + Connections(after)
  {
    var failed: seq<Accept<C>> := [AcceptFailed(message)];
    assert Connections(failed) == [] by {
      assert failed[1..] == [];
    }
    ConnectionsAppend(before, failed);
    ConnectionsAppend(before + failed, after);
    assert Connections(before + failed) == Connections(before) + [];
  }

  /** The first accept of a run goes to the pool or to the log, and the rest follow. */
  lemma AcceptStep<C>(accepts: seq<Accept<C>>)
    requires accepts != []
    ensures accepts[0].Accepted? ==>
              && Connections(accepts) == [accepts[0].connection] + Connections(accepts[1..])
              && Failures(accepts) == Failures(accepts[1..])
    ensures accepts[0].AcceptFailed? ==>
              && Connections(accepts) == Connections(accepts[1..])
              && Failures(accepts) == [accepts[0].message] + Failures(accepts[1..])
  {
  }

  /**
   * `Server.run` over a run of accepts, for a pool of `maxWorkers` threads:
   * the connections submitted to the pool, in order, and the accept errors
   * logged. A pool of no threads or fewer cannot be created (ValueError), so
   * the server ends before its first accept.
   */
  method Run<C>(maxWorkers: int, accepts: seq<Accept<C>>) returns (submitted: seq<C>, logged: seq<string>)
    ensures maxWorkers <= 0 ==> submitted == [] && logged == []
    ensures maxWorkers > 0 ==> submitted == Connections(accepts)
    ensures maxWorkers > 0 ==> logged == Failures(accepts)
    ensures maxWorkers > 0 ==> |submitted| + |logged| == |accepts|
  {
    submitted, logged := [], [];
    if maxWorkers <= 0 {
      return;
    }
    var i := 0;
    while i < |accepts|
      invariant 0 <= i <= |accepts|
      invariant Connections(accepts) == submitted + Connections(accepts[i..])
      invariant Failures(accepts) == logged + Failures(accepts[i..])
    {
      AcceptStep(accepts[i..]);
      assert accepts[i..][0] == accepts[i] && accepts[i..][1..] == accepts[i + 1..];
      match accepts[i] {
        case Accepted(connection) =>
          submitted := submitted + [connection];
        case AcceptFailed(message) =>
          logged := logged + [message];
      }
      i := i + 1;
    }
    EveryAcceptAccountedFor(accepts);
  }
}
