/**
 * The process-slot bookkeeping of `Server.run` in
 * tugas-ets/processpool_server.py.
 *
 * The server keeps the list of processes it started. On each accepted
 * connection it drops the processes that are no longer alive; while the list
 * is still at its maximum it keeps polling, dropping the dead ones each time;
 * then it starts one process for the connection and appends it.
 *
 * A process is known by its identifier. Liveness is an oracle: a poll is the
 * set of processes that `is_alive()` reports alive at that moment. The
 * sleeping between polls is not modelled.
 */
module ProcessPoolServer {

  type Pid = nat

  /** The listed processes that one poll finds alive, in their order. */
  function Prune(processes: seq<Pid>, alive: set<Pid>): (r: seq<Pid>)
    ensures |r| <= |processes|
  {
    if processes == [] then []
    else (if processes[0] in alive then [processes[0]] else []) + Prune(processes[1..], alive)
  }

  /** Pruning keeps exactly the listed processes that are alive. */
  lemma {:induction false} PruneMembers(processes: seq<Pid>, alive: set<Pid>)
    ensures forall p :: p in Prune(processes, alive) <==> p in processes && p in alive
  {
    if processes != [] {
      PruneMembers(processes[1..], alive);
    }
  }

  /** The list after pruning once for each of the polls, in order. */
  function PruneAll(processes: seq<Pid>, polls: seq<set<Pid>>): seq<Pid>
  {
    if polls == [] then processes
    else Prune(PruneAll(processes, polls[..|polls| - 1]), polls[|polls| - 1])
  }

  /** The list after the polls up to and including the k-th. */
  function ListAfter(processes: seq<Pid>, polls: seq<set<Pid>>, k: nat): seq<Pid>
    requires k < |polls|
  {
    PruneAll(processes, polls[..k + 1])
  }

  /** The first poll prunes the list once. */
  lemma ListAfterFirst(processes: seq<Pid>, polls: seq<set<Pid>>)
    requires polls != []
    ensures ListAfter(processes, polls, 0) == Prune(processes, polls[0])
  {
    var first := polls[..1];
    assert first[..0] == [] && first[0] == polls[0];
    assert PruneAll(processes, first[..0]) == processes;
  }

  /** One more poll prunes the list once more. */
  lemma ListAfterStep(processes: seq<Pid>, polls: seq<set<Pid>>, k: nat)
    requires k + 1 < |polls|
    ensures ListAfter(processes, polls, k + 1) == Prune(ListAfter(processes, polls, k), polls[k + 1])
  {
    assert polls[..k + 2][..k + 1] == polls[..k + 1];
  }

  /** Processes alive at every one of the polls. */
  function AliveThroughout(processes: seq<Pid>, polls: seq<set<Pid>>): set<Pid>
  {
    set p | p in processes && forall k :: 0 <= k < |polls| ==> p in polls[k]
  }

  /** No process appears twice. */
  predicate Distinct(processes: seq<Pid>)
  {
    forall i, j :: 0 <= i < j < |processes| ==> processes[i] != processes[j]
  }

  /** Pruning respects the order of the list: it can be done piece by piece. */
  lemma {:induction false} PruneAppend(a: seq<Pid>, b: seq<Pid>, alive: set<Pid>)
    ensures Prune(a + b, alive) == Prune(a, alive) + Prune(b, alive)
  {
    if a == [] {
      assert a + b == b;
    } else {
      var head := if a[0] in alive then [a[0]] else [];
      assert (a + b)[0] == a[0];
      assert (a + b)[1..] == a[1..] + b;
      assert Prune(a + b, alive) == head + Prune(a[1..] + b, alive);
      PruneAppend(a[1..], b, alive);
      assert Prune(a, alive) == head + Prune(a[1..], alive);
    }
  }

  /** Pruning twice is pruning once by the processes alive at both polls. */
  lemma {:induction false} PruneTwice(processes: seq<Pid>, first: set<Pid>, second: set<Pid>)
    ensures Prune(Prune(processes, first), second) == Prune(processes, first * second)
  {
    if processes != [] {
      PruneTwice(processes[1..], first, second);
      var head := if processes[0] in first then [processes[0]] else [];
      PruneAppend(head, Prune(processes[1..], first), second);
    }
  }

  /** Pruning by every process in the list, or more, keeps the list as it is. */
  lemma {:induction false} PruneAllAlive(processes: seq<Pid>, alive: set<Pid>)
    requires forall p :: p in processes ==> p in alive
    ensures Prune(processes, alive) == processes
  {
    if processes != [] {
      PruneAllAlive(processes[1..], alive);
    }
  }

  /** Fewer processes alive means a list no longer. */
  lemma {:induction false} PruneMonotone(processes: seq<Pid>, small: set<Pid>, large: set<Pid>)
    requires small <= large
    ensures |Prune(processes, small)| <= |Prune(processes, large)|
  {
    if processes != [] {
      PruneMonotone(processes[1..], small, large);
    }
  }

  /** Alive at every poll means alive at every earlier poll and at the last one. */
  lemma AliveThroughoutLast(processes: seq<Pid>, polls: seq<set<Pid>>)
    requires polls != []
    ensures forall p :: p in processes ==>
              (p in AliveThroughout(processes, polls) <==>
               p in AliveThroughout(processes, polls[..|polls| - 1]) && p in polls[|polls| - 1])
  {
    var init := polls[..|polls| - 1];
    assert forall k :: 0 <= k < |init| ==> init[k] == polls[k];
  }

  /**
   * Repeated pruning keeps exactly the processes alive at every poll, in
   * their original order.
   */
  lemma {:induction false} PruneAllKeepsSurvivors(processes: seq<Pid>, polls: seq<set<Pid>>)
    ensures PruneAll(processes, polls) == Prune(processes, AliveThroughout(processes, polls))
  {
    if polls == [] {
      PruneAllAlive(processes, AliveThroughout(processes, polls));
    } else {
      var init := polls[..|polls| - 1];
      var last := polls[|polls| - 1];
      var before := AliveThroughout(processes, init);
      assert PruneAll(processes, polls) == Prune(PruneAll(processes, init), last);
      PruneAllKeepsSurvivors(processes, init);
      PruneTwice(processes, before, last);
      AliveThroughoutLast(processes, polls);
      PruneSameOnList(processes, before * last, AliveThroughout(processes, polls));
    }
  }

  /** Pruning only looks at the processes in the list. */
  lemma {:induction false} PruneSameOnList(processes: seq<Pid>, a: set<Pid>, b: set<Pid>)
    requires forall p :: p in processes ==> (p in a <==> p in b)
    ensures Prune(processes, a) == Prune(processes, b)
  {
    if processes != [] {
      PruneSameOnList(processes[1..], a, b);
    }
  }

  /** After the polls up to the k-th the list is no longer than pruning by the k-th poll alone. */
  lemma PruneAllBound(processes: seq<Pid>, polls: seq<set<Pid>>, k: nat)
    requires k < |polls|
    ensures |ListAfter(processes, polls, k)| <= |Prune(processes, polls[k])|
  {
    PruneAllKeepsSurvivors(processes, polls[..k + 1]);
    var survivors := AliveThroughout(processes, polls[..k + 1]);
    assert forall p :: p in processes ==> (p in survivors ==> p in polls[k]) by {
      assert polls[..k + 1][k] == polls[k];
    }
    PruneMonotone(processes, survivors * polls[k], polls[k]);
    PruneSameOnList(processes, survivors, survivors * polls[k]);
  }

  /** A list without repetitions, all of whose processes are in a set, is no longer than the set. */
  lemma {:induction false} DistinctWithin(processes: seq<Pid>, s: set<Pid>)
    requires Distinct(processes)
    requires forall p :: p in processes ==> p in s
    ensures |processes| <= |s|
  {
    if processes != [] {
      assert forall p :: p in processes[1..] ==> p in s - {processes[0]} by {
        forall p | p in processes[1..] ensures p in s - {processes[0]} {
          var j :| 0 <= j < |processes[1..]| && processes[1..][j] == p;
          assert processes[j + 1] == p;
        }
      }
      DistinctWithin(processes[1..], s - {processes[0]});
    }
  }

  /**
   * The index of the first poll after which fewer than `maxProcesses`
   * processes are listed, from the k-th poll on; the last poll when none is.
   */
  function FirstRoom(processes: seq<Pid>, polls: seq<set<Pid>>, maxProcesses: int, k: nat): (w: nat)
    requires k < |polls|
    ensures k <= w < |polls|
    decreases |polls| - k
  {
    if |ListAfter(processes, polls, k)| < maxProcesses || k == |polls| - 1 then k
    else FirstRoom(processes, polls, maxProcesses, k + 1)
  }

  /** A poll with room, preceded only by polls without, is the first with room. */
  lemma {:induction false} FirstRoomIs(processes: seq<Pid>, polls: seq<set<Pid>>, maxProcesses: int, k: nat, w: nat)
    requires k <= w < |polls| && |ListAfter(processes, polls, w)| < maxProcesses
    requires forall j :: k <= j < w ==> |ListAfter(processes, polls, j)| >= maxProcesses
    ensures FirstRoom(processes, polls, maxProcesses, k) == w
    decreases w - k
  {
    if k < w {
      FirstRoomIs(processes, polls, maxProcesses, k + 1, w);
    }
  }

  /** When no poll from the k-th on has room, the wait loop runs through all of them. */
  lemma {:induction false} FirstRoomNone(processes: seq<Pid>, polls: seq<set<Pid>>, maxProcesses: int, k: nat)
    requires k < |polls|
    requires forall j :: k <= j < |polls| ==> |ListAfter(processes, polls, j)| >= maxProcesses
    ensures FirstRoom(processes, polls, maxProcesses, k) == |polls| - 1
    decreases |polls| - k
  {
    if k < |polls| - 1 {
      FirstRoomNone(processes, polls, maxProcesses, k + 1);
    }
  }

  /**
   * A maximum of zero or less leaves no room at any poll: the wait loop polls
   * for ever, no admission's liveness condition can hold, and no connection
   * is ever served.
   */
  lemma NoRoomWithoutSlots(processes: seq<Pid>, polls: seq<set<Pid>>, maxProcesses: int)
    requires maxProcesses <= 0 && polls != []
    ensures FirstRoom(processes, polls, maxProcesses, 0) == |polls| - 1
  {
    FirstRoomNone(processes, polls, maxProcesses, 0);
  }

  /** One admission: the list after the first poll with room, plus the new process. */
  function Admitted(processes: seq<Pid>, polls: seq<set<Pid>>, maxProcesses: int, p: Pid): (admitted: seq<Pid>)
    requires polls != []
    ensures admitted != [] && admitted[|admitted| - 1] == p
  {
    ListAfter(processes, polls, FirstRoom(processes, polls, maxProcesses, 0)) + [p]
  }

  /** Admission keeps every listed process that was alive at every poll, and adds the new one last. */
  lemma AdmittedKeepsSurvivors(processes: seq<Pid>, polls: seq<set<Pid>>, maxProcesses: int, p: Pid, q: Pid)
    requires polls != []
    requires q in processes && forall k :: 0 <= k < |polls| ==> q in polls[k]
    ensures q in Admitted(processes, polls, maxProcesses, p)
  {
    var w := FirstRoom(processes, polls, maxProcesses, 0);
    var upTo := polls[..w + 1];
    PruneAllKeepsSurvivors(processes, upTo);
    assert q in AliveThroughout(processes, upTo);
    PruneMembers(processes, AliveThroughout(processes, upTo));
  }

  /**
   * The accept loop's admissions, the i-th for process `arrivals[i]` with
   * `polls[i]` the polls of its turn, one after the other.
   */
  function AdmitAll(processes: seq<Pid>, arrivals: seq<Pid>, polls: seq<seq<set<Pid>>>, maxProcesses: int): (admitted: seq<Pid>)
    requires |polls| == |arrivals|
    requires forall i :: 0 <= i < |polls| ==> polls[i] != []
    ensures arrivals != [] ==> admitted != [] && admitted[|admitted| - 1] == arrivals[|arrivals| - 1]
    decreases |arrivals|
  {
    if arrivals == [] then processes
    else AdmitAll(Admitted(processes, polls[0], maxProcesses, arrivals[0]), arrivals[1..], polls[1..], maxProcesses)
  }

  /** The admissions from the i-th on are the i-th admission followed by the rest. */
  lemma AdmitAllStep(processes: seq<Pid>, arrivals: seq<Pid>, polls: seq<seq<set<Pid>>>, maxProcesses: int, i: nat)
    requires |polls| == |arrivals| && i < |arrivals|
    requires forall j :: 0 <= j < |polls| ==> polls[j] != []
    ensures AdmitAll(processes, arrivals[i..], polls[i..], maxProcesses)
            == AdmitAll(Admitted(processes, polls[i], maxProcesses, arrivals[i]), arrivals[i + 1..], polls[i + 1..], maxProcesses)
  {
    assert arrivals[i..][1..] == arrivals[i + 1..] && polls[i..][1..] == polls[i + 1..];
  }

  class Server {
    const maxProcesses: int
    var processes: seq<Pid>

    constructor (maxProcesses: int)
      ensures this.maxProcesses == maxProcesses && processes == []
    {
      this.maxProcesses := maxProcesses;
      processes := [];
    }

    /**
     * One turn of the accept loop, for a connection served by the new process
     * `p`. `polls` holds what `is_alive()` reports at the first pruning and at
     * each later poll of the wait loop; after some poll fewer than
     * `maxProcesses` of the listed processes must remain, or the loop never ends.
     * `waits` is the number of polls of the wait loop.
     */
    method Admit(p: Pid, polls: seq<set<Pid>>) returns (waits: nat)
      requires exists k :: 0 <= k < |polls| && |ListAfter(processes, polls, k)| < maxProcesses
      modifies this
      ensures waits < |polls|
      ensures |ListAfter(old(processes), polls, waits)| < maxProcesses
      ensures forall k :: 0 <= k < waits ==> |ListAfter(old(processes), polls, k)| >= maxProcesses
      ensures processes == ListAfter(old(processes), polls, waits) + [p]
      ensures processes == Admitted(old(processes), polls, maxProcesses, p)
      ensures |processes| <= maxProcesses
    {
      var current := processes;
      ghost var k :| 0 <= k < |polls| && |ListAfter(current, polls, k)| < maxProcesses;
      ListAfterFirst(current, polls);
      waits := 0;
      var pruned := Prune(current, polls[0]);
      while |pruned| >= maxProcesses
        invariant waits <= k
        invariant pruned == ListAfter(current, polls, waits)
        invariant forall j :: 0 <= j < waits ==> |ListAfter(current, polls, j)| >= maxProcesses
        decreases k - waits
      {
        assert |ListAfter(current, polls, waits)| >= maxProcesses;
        ListAfterStep(current, polls, waits);
        waits := waits + 1;
        pruned := Prune(pruned, polls[waits]);
      }
      FirstRoomIs(current, polls, maxProcesses, 0, waits);
      processes := pruned + [p];
    }

    /**
     * The accept loop over a run of connections, the i-th served by the new
     * process `arrivals[i]`. Each process is new. Liveness: the last poll of
     * each turn finds fewer than `maxProcesses` processes alive. The final
     * list is that of the admissions one after the other; after every
     * admission the list is within the bound, holds no process twice, and
     * ends with the process just started.
     */
    method Run(arrivals: seq<Pid>, polls: seq<seq<set<Pid>>>)
      requires |polls| == |arrivals|
      requires Distinct(processes + arrivals)
      requires forall i :: 0 <= i < |polls| ==> polls[i] != [] && |polls[i][|polls[i]| - 1]| < maxProcesses
      modifies this
      ensures processes == AdmitAll(old(processes), arrivals, polls, maxProcesses)
      ensures Distinct(processes)
      ensures forall q :: q in processes ==> q in old(processes) || q in arrivals
      ensures arrivals != [] ==> 0 < |processes| <= maxProcesses && processes[|processes| - 1] == arrivals[|arrivals| - 1]
    {
      var i := 0;
      while i < |arrivals|
        invariant 0 <= i <= |arrivals|
        invariant Distinct(processes + arrivals[i..])
        invariant forall q :: q in processes ==> q in old(processes) || q in arrivals[..i]
        invariant i > 0 ==> 0 < |processes| <= maxProcesses && processes[|processes| - 1] == arrivals[i - 1]
        invariant AdmitAll(old(processes), arrivals, polls, maxProcesses)
                  == AdmitAll(processes, arrivals[i..], polls[i..], maxProcesses)
      {
        var last := polls[i][|polls[i]| - 1];
        RoomAtLastPoll(processes, arrivals[i..], last, maxProcesses);
        ghost var before := processes;
        AdmitAllStep(processes, arrivals, polls, maxProcesses, i);
        PruneAllBound(processes, polls[i], |polls[i]| - 1);
        var waits := Admit(arrivals[i], polls[i]);
        RunStep(old(processes), before, processes, arrivals, polls[i], i, waits);
        i := i + 1;
      }
      assert processes + arrivals[i..] == processes;
    }
  }

  /**
   * One turn of the accept loop keeps its invariants: admitting `arrivals[i]`
   * after the polls up to the `waits`-th keeps the list and the arrivals still
   * to come free of repetitions, and keeps every listed process a started one.
   */
  lemma RunStep(start: seq<Pid>, before: seq<Pid>, after: seq<Pid>, arrivals: seq<Pid>,
                polls: seq<set<Pid>>, i: nat, waits: nat)
    requires i < |arrivals| && waits < |polls|
    requires Distinct(before + arrivals[i..])
    requires forall q :: q in before ==> q in start || q in arrivals[..i]
    requires after == ListAfter(before, polls, waits) + [arrivals[i]]
    ensures Distinct(after + arrivals[i + 1..])
    ensures forall q :: q in after ==> q in start || q in arrivals[..i + 1]
    ensures after[|after| - 1] == arrivals[i]
  {
    AdmittedStaysDistinct(before, polls, waits, arrivals[i..]);
    assert arrivals[..i + 1] == arrivals[..i] + [arrivals[i]];
    assert after + arrivals[i + 1..] == ListAfter(before, polls, waits) + arrivals[i..] by {
      assert arrivals[i..] == [arrivals[i]] + arrivals[i + 1..];
    }
  }

  /** When the last poll finds fewer than the maximum alive, so does pruning by it. */
  lemma RoomAtLastPoll(processes: seq<Pid>, rest: seq<Pid>, last: set<Pid>, maxProcesses: int)
    requires Distinct(processes + rest) && |last| < maxProcesses
    ensures Distinct(processes) && |Prune(processes, last)| < maxProcesses
  {
    assert forall j :: 0 <= j < |processes| ==> (processes + rest)[j] == processes[j];
    DistinctPrune(processes, last);
    PruneMembers(processes, last);
    DistinctWithin(Prune(processes, last), last);
  }

  /** The pruned list keeps only listed processes, and still shares none with what follows. */
  lemma AdmittedStaysDistinct(before: seq<Pid>, polls: seq<set<Pid>>, waits: nat, rest: seq<Pid>)
    requires waits < |polls| && Distinct(before + rest)
    ensures Distinct(ListAfter(before, polls, waits) + rest)
    ensures forall q :: q in ListAfter(before, polls, waits) ==> q in before
  {
    assert forall j :: 0 <= j < |before| ==> (before + rest)[j] == before[j];
    PruneAllKeepsSurvivors(before, polls[..waits + 1]);
    DistinctPrune(before, AliveThroughout(before, polls[..waits + 1]));
    PruneMembers(before, AliveThroughout(before, polls[..waits + 1]));
    DistinctKeepSublist(before, ListAfter(before, polls, waits), rest);
  }

  /** Pruning a list without repetitions leaves a list without repetitions. */
  lemma {:induction false} DistinctPrune(processes: seq<Pid>, alive: set<Pid>)
    requires Distinct(processes)
    ensures Distinct(Prune(processes, alive))
  {
    if processes != [] {
      DistinctPrune(processes[1..], alive);
      var tail := Prune(processes[1..], alive);
      PruneMembers(processes[1..], alive);
      assert processes[0] !in tail;
    }
  }

  /** Replacing a prefix without repetitions by a sublist of it keeps the whole without repetitions. */
  lemma DistinctKeepSublist(whole: seq<Pid>, part: seq<Pid>, rest: seq<Pid>)
    requires Distinct(whole + rest) && Distinct(part)
    requires forall p :: p in part ==> p in whole
    ensures Distinct(part + rest)
  {
    forall i, j | 0 <= i < j < |part + rest| ensures (part + rest)[i] != (part + rest)[j] {
      if j >= |part| && i < |part| {
        var x := part[i];
        assert x in whole;
        var m :| 0 <= m < |whole| && whole[m] == x;
        assert (whole + rest)[m] == x;
        assert (whole + rest)[|whole| + j - |part|] == (part + rest)[j];
      } else if i >= |part| {
        assert (whole + rest)[|whole| + i - |part|] == (part + rest)[i];
        assert (whole + rest)[|whole| + j - |part|] == (part + rest)[j];
      }
    }
  }
}
