/**
 * The load client of tugas-ets/stress-test.py, without its sockets, clocks
 * and worker pools: how `send_command` cuts a command into writes and
 * extracts the response, how `run_test` tallies what its workers returned,
 * the file names `record_upload` gives its uploads and the names `cleanup`
 * removes afterwards, and `reset_counters`.
 */
module StressTest {
  import opened Wrappers
  import opened Text
  import opened Framing
  import FileInterface

  // ---------------------------------------------------------------------
  // send_command: writing a command
  // ---------------------------------------------------------------------

  /** The largest write `send_command` makes for a command. */
  const ChunkLimit: nat := 65536

  /**
   * The slices `command_str[i:i+65536]` for i in `range(0, len(command_str),
   * 65536)`: together the whole command, none empty, and every one but the
   * last exactly 65536 characters long.
   */
  function Chunks(command: string): (chunks: seq<string>)
    ensures Concat(chunks) == command
    ensures forall k :: 0 <= k < |chunks| ==> 0 < |chunks[k]| <= ChunkLimit
    ensures forall k :: 0 <= k < |chunks| - 1 ==> |chunks[k]| == ChunkLimit
    decreases |command|
  {
    if command == [] then []
    else if |command| <= ChunkLimit then [command]
    else
      var tail := Chunks(command[ChunkLimit..]);
      assert ([command[..ChunkLimit]] + tail)[1..] == tail;
      [command[..ChunkLimit]] + tail
  }

  /** Everything `send_command` writes, in order: the chunks, then the terminator once. */
  function Wire(command: string): seq<string>
  {
    Chunks(command) + [Terminator]
  }

  /** The writes carry the command followed by one terminator, and none of them is empty. */
  lemma WireCarriesCommand(command: string)
    ensures Concat(Wire(command)) == command + Terminator
    ensures forall k :: 0 <= k < |Wire(command)| ==> Wire(command)[k] != ""
    ensures Wire(command)[|Wire(command)| - 1] == Terminator
  {
    ConcatAppend(Chunks(command), [Terminator]);
    assert Concat([Terminator]) == Terminator;
  }

  /** The terminator starts at position i of s. */
  predicate TerminatorAt(s: string, i: nat)
  {
    i + 4 <= |s| && s[i..i + 4] == Terminator
  }

  /** The terminator occurs somewhere in s. */
  predicate ContainsTerminator(s: string)
  {
    exists i: nat | i + 4 <= |s| :: TerminatorAt(s, i)
  }

  /**
   * A text is framed unambiguously when the terminator appended to it first
   * occurs at its end (UnambiguousIff: it neither contains the terminator nor
   * ends with "\r\n").
   */
  predicate Unambiguous(text: string)
  {
    forall i: nat :: i < |text| ==> !TerminatorAt(text + Terminator, i)
  }

  /** Appending the terminator does not change the terminators that lie wholly inside the text. */
  lemma TerminatorInside(text: string, i: nat)
    requires i + 4 <= |text|
    ensures TerminatorAt(text + Terminator, i) <==> TerminatorAt(text, i)
  {
    assert (text + Terminator)[i..i + 4] == text[i..i + 4];
  }

  /** A terminator straddling the end of the text starts two characters early exactly when the text ends with "\r\n". */
  lemma TerminatorAcrossEnd(text: string)
    requires |text| >= 2
    ensures TerminatorAt(text + Terminator, |text| - 2) <==> EndsWith(text, "\r\n")
  {
    var whole := text + Terminator;
    var tail := text[|text| - 2..];
    assert whole[|text| - 2..|text| + 2] == tail + "\r\n";
    assert (tail + "\r\n")[..2] == tail;
    assert Terminator == "\r\n" + "\r\n";
  }

  /** No terminator starts one or three characters before the end of the text. */
  lemma NoTerminatorAtOddOffset(text: string, i: nat)
    requires i < |text| && (i + 1 == |text| || i + 3 == |text|)
    ensures !TerminatorAt(text + Terminator, i)
  {
    var whole := text + Terminator;
    var at := |text| - i;
    assert whole[|text|] == '\r';
    if i + 4 <= |whole| {
      assert whole[i..i + 4][at] == '\r';
      assert Terminator[at] == '\n';
    }
  }

  /** The texts a terminator frames unambiguously are those without "\r\n\r\n" that do not end with "\r\n". */
  lemma UnambiguousIff(text: string)
    ensures Unambiguous(text) <==> !ContainsTerminator(text) && !EndsWith(text, "\r\n")
  {
    if Unambiguous(text) {
      forall i: nat | i + 4 <= |text|
        ensures !TerminatorAt(text, i)
      {
        TerminatorInside(text, i);
      }
      if |text| >= 2 {
        TerminatorAcrossEnd(text);
      }
    }
    if !ContainsTerminator(text) && !EndsWith(text, "\r\n") {
      forall i: nat | i < |text|
        ensures !TerminatorAt(text + Terminator, i)
      {
        if i + 4 <= |text| {
          TerminatorInside(text, i);
        } else if i + 2 == |text| {
          TerminatorAcrossEnd(text);
        } else {
          NoTerminatorAtOddOffset(text, i);
        }
      }
    }
  }

  /** A proper part of an unambiguous text and its terminator, cut short of the end, does not end with the terminator. */
  lemma EarlyPrefixNotTerminated(text: string, prefix: string, rest: string)
    requires Unambiguous(text)
    requires prefix + rest == text + Terminator && rest != ""
    ensures !EndsWith(prefix, Terminator)
  {
    if |prefix| >= 4 {
      var i := |prefix| - 4;
      assert prefix[i..] == (text + Terminator)[i..i + 4];
      assert !TerminatorAt(text + Terminator, i);
    }
  }

  /** What the first k pieces of an unambiguous command and its terminator carry does not end with the terminator. */
  lemma PiecePrefixNotTerminated(command: string, pieces: seq<string>, k: nat)
    requires Unambiguous(command)
    requires 1 <= k < |pieces| && pieces[k] != ""
    requires Concat(pieces) == command + Terminator
    ensures !EndsWith(Concat(pieces[..k]), Terminator)
  {
    ConcatAppend(pieces[..k], pieces[k..]);
    assert pieces[..k] + pieces[k..] == pieces;
    assert Concat(pieces[k..]) == pieces[k] + Concat(pieces[k + 1..]) by {
      assert pieces[k..][1..] == pieces[k + 1..];
    }
    EarlyPrefixNotTerminated(command, Concat(pieces[..k]), Concat(pieces[k..]));
  }

  /**
   * However the network cuts an unambiguous command and its terminator into
   * non-empty reads, the server's per-connection loop hands exactly that
   * command to the protocol handler, once, and keeps nothing in its buffer.
   */
  lemma ServerReceivesCommand(command: string, pieces: seq<string>)
    requires Unambiguous(command)
    requires pieces != [] && forall k :: 0 <= k < |pieces| ==> pieces[k] != ""
    requires Concat(pieces) == command + Terminator
    ensures Frame("", pieces) == Framed([command], "", false)
  {
    assert "" + Concat(pieces) == command + Terminator;
    forall k | 1 <= k < |pieces|
      ensures !EndsWith("" + Concat(pieces[..k]), Terminator)
    {
      PiecePrefixNotTerminated(command, pieces, k);
      assert "" + Concat(pieces[..k]) == Concat(pieces[..k]);
    }
    SplitCommandDispatchedOnce("", pieces, command);
  }

  /** In particular when the server's reads are exactly the client's writes. */
  lemma ServerReceivesWire(command: string)
    requires Unambiguous(command)
    ensures Frame("", Wire(command)) == Framed([command], "", false)
  {
    WireCarriesCommand(command);
    ServerReceivesCommand(command, Wire(command));
  }

  // ---------------------------------------------------------------------
  // send_command: reading the response
  // ---------------------------------------------------------------------

  function ResponseFrom(data: string, i: nat): (text: string)
    requires i <= |data|
    requires forall j: nat :: j < i ==> !TerminatorAt(data, j)
    ensures |text| <= |data| && text == data[..|text|]
    ensures forall j: nat :: j < |text| ==> !TerminatorAt(data, j)
    ensures |text| == |data| || TerminatorAt(data, |text|)
    decreases |data| - i
  {
    if i + 4 > |data| then data
    else if data[i..i + 4] == Terminator then data[..i]
    else ResponseFrom(data, i + 1)
  }

  /**
   * The first piece of the received data split at the terminator: the text
   * before the first terminator, or all of it when there is none.
   */
  function ResponseText(data: string): (text: string)
    ensures |text| <= |data| && text == data[..|text|]
    ensures forall j: nat :: j < |text| ==> !TerminatorAt(data, j)
    ensures |text| == |data| || TerminatorAt(data, |text|)
  {
    ResponseFrom(data, 0)
  }

  /** The response text is shorter than the data exactly when the data holds a terminator. */
  lemma ResponseTextWhole(data: string)
    ensures ResponseText(data) == data <==> !ContainsTerminator(data)
  {
    if ResponseText(data) != data {
      assert TerminatorAt(data, |ResponseText(data)|);
    }
  }

  /**
   * A reply to an unambiguous answer reads back as that answer, whatever
   * arrived after its terminator.
   */
  lemma ResponseOfReply(answer: string, more: string)
    requires Unambiguous(answer)
    ensures ResponseText(answer + Terminator + more) == answer
  {
    var data := answer + Terminator + more;
    var text := ResponseText(data);
    assert data[|answer|..|answer| + 4] == Terminator;
    assert TerminatorAt(data, |answer|);
    if |text| < |answer| {
      assert data[|text|..|text| + 4] == (answer + Terminator)[|text|..|text| + 4];
      assert TerminatorAt(answer + Terminator, |text|);
      assert false;
    }
    assert data[..|answer|] == answer;
  }

  /**
   * The receive loop of `send_command` from buffer `data` on: reads until the
   * buffer holds a terminator or the peer closes, then answers the response
   * text. Running out of reads is the socket timeout, None.
   */
  function Receive(data: string, recvs: seq<string>): (response: Option<string>)
    ensures response.None? ==> "" !in recvs
    decreases |recvs|
  {
    if recvs == [] then None
    else if recvs[0] == "" then Some(ResponseText(data))
    else
      var received := data + recvs[0];
      if ContainsTerminator(received) then Some(ResponseText(received))
      else Receive(received, recvs[1..])
  }

  /** The receive loop of `send_command`; None is its socket-timeout result. */
  method ReceiveResponse(recvs: seq<string>) returns (response: Option<string>)
    ensures response == Receive("", recvs)
  {
    var dataReceived := "";
    var i := 0;
    while i < |recvs|
      invariant 0 <= i <= |recvs|
      invariant Receive("", recvs) == Receive(dataReceived, recvs[i..])
    {
      assert recvs[i..][1..] == recvs[i + 1..];
      var data := recvs[i];
      if data != "" {
        dataReceived := dataReceived + data;
        if ContainsTerminator(dataReceived) {
          return Some(ResponseText(dataReceived));
        }
      } else {
        return Some(ResponseText(dataReceived));
      }
      i := i + 1;
    }
    return None;
  }

  /**
   * However the reply to an unambiguous answer is cut into non-empty reads,
   * the client reads back exactly that answer.
   */
  lemma {:induction false} ClientReceivesAnswer(data: string, recvs: seq<string>, answer: string)
    requires Unambiguous(answer)
    requires recvs != [] && forall k :: 0 <= k < |recvs| ==> recvs[k] != ""
    requires data + Concat(recvs) == answer + Terminator
    ensures Receive(data, recvs) == Some(answer)
    decreases |recvs|
  {
    var received := data + recvs[0];
    assert received + Concat(recvs[1..]) == answer + Terminator;
    if |recvs| == 1 {
      assert received == answer + Terminator + "";
      ResponseOfReply(answer, "");
      assert TerminatorAt(received, |answer|);
    } else {
      assert 0 < |Concat(recvs[1..])| by {
        assert Concat(recvs[1..]) == recvs[1] + Concat(recvs[2..]) by {
          assert recvs[1..][1..] == recvs[2..];
        }
      }
      if ContainsTerminator(received) {
        var i: nat :| i + 4 <= |received| && TerminatorAt(received, i);
        assert (answer + Terminator)[i..i + 4] == received[i..i + 4];
        assert TerminatorAt(answer + Terminator, i);
        assert false;
      }
      ClientReceivesAnswer(received, recvs[1..], answer);
    }
  }

  /** A reply the server sent for `command` reads back as the handler's answer. */
  lemma ClientReceivesReply(handler: string -> string, command: string, recvs: seq<string>)
    requires Unambiguous(handler(command))
    requires recvs != [] && forall k :: 0 <= k < |recvs| ==> recvs[k] != ""
    requires Concat(recvs) == Reply(handler, command)
    ensures Receive("", recvs) == Some(handler(command))
  {
    assert "" + Concat(recvs) == handler(command) + Terminator;
    ClientReceivesAnswer("", recvs, handler(command));
  }

  // ---------------------------------------------------------------------
  // run_test: operations, records and tallies
  // ---------------------------------------------------------------------

  datatype Operation = Upload | Get | List

  /** The name `run_test` accepts for each operation. */
  function OperationName(op: Operation): string
  {
    match op
    case Upload => "upload"
    case Get => "get"
    case List => "list"
  }

  /** The operation named by s, when s is one of the three names `run_test` accepts. */
  function ParseOperation(s: string): (op: Option<Operation>)
    ensures op.Some? ==> OperationName(op.value) == s
  {
    if s == "upload" then Some(Upload)
    else if s == "get" then Some(Get)
    else if s == "list" then Some(List)
    else None
  }

  /** Every operation is accepted under its own name. */
  lemma ParseOperationName(op: Operation)
    ensures ParseOperation(OperationName(op)) == Some(op)
  {
  }

  const AllOperations: set<Operation> := {Upload, Get, List}

  const OkStatus: string := "OK"

  /** What a worker's `record_upload`, `record_get` or `record_list` returned. */
  datatype Record = Record(workerId: nat, status: string, duration: real, throughput: Option<real>)

  /** One future, as `as_completed` yields it: its record, or the exception it raised. */
  datatype Completion = Completed(record: Record) | Raised(message: string)

  /** The records of the futures that completed, in completion order (`all_results`). */
  function Records(completions: seq<Completion>): (records: seq<Record>)
    ensures forall r :: r in records ==> Completed(r) in completions
  {
    if completions == [] then []
    else
      var last := completions[|completions| - 1];
      Records(completions[..|completions| - 1]) + (if last.Completed? then [last.record] else [])
  }

  /** The number of records whose status is OK. */
  function CountOk(records: seq<Record>): (count: nat)
    ensures count <= |records|
  {
    if records == [] then 0
    else CountOk(records[..|records| - 1]) + (if records[|records| - 1].status == OkStatus then 1 else 0)
  }

  /** The number of records whose status is anything but OK. */
  function CountNotOk(records: seq<Record>): (count: nat)
    ensures count <= |records|
  {
    if records == [] then 0
    else CountNotOk(records[..|records| - 1]) + (if records[|records| - 1].status != OkStatus then 1 else 0)
  }

  /** The durations of the records whose status is OK, in order. */
  function OkDurations(records: seq<Record>): (durations: seq<real>)
    ensures |durations| <= |records|
  {
    if records == [] then []
    else
      var last := records[|records| - 1];
      OkDurations(records[..|records| - 1]) + (if last.status == OkStatus then [last.duration] else [])
  }

  /** The throughputs that are present and positive, in order. */
  function PositiveThroughputs(records: seq<Record>): (throughputs: seq<real>)
    ensures |throughputs| <= |records|
    ensures forall k :: 0 <= k < |throughputs| ==> throughputs[k] > 0.0
  {
    if records == [] then []
    else
      var last := records[|records| - 1];
      PositiveThroughputs(records[..|records| - 1])
        + (if last.throughput.Some? && last.throughput.value > 0.0 then [last.throughput.value] else [])
  }

  /** Throughputs come from the records with a positive one, one each. */
  lemma {:induction false} ThroughputsOfRecords(records: seq<Record>)
    ensures forall t :: t in PositiveThroughputs(records) ==> exists r :: r in records && r.throughput == Some(t)
    ensures forall r :: r in records && r.throughput.Some? && r.throughput.value > 0.0 ==> r.throughput.value in PositiveThroughputs(records)
  {
    if records != [] {
      var init := records[..|records| - 1];
      var last := records[|records| - 1];
      ThroughputsOfRecords(init);
      assert records == init + [last];
      forall t | t in PositiveThroughputs(records)
        ensures exists r :: r in records && r.throughput == Some(t)
      {
        if t in PositiveThroughputs(init) {
          var r :| r in init && r.throughput == Some(t);
          assert r in records;
        } else {
          assert last in records;
        }
      }
    }
  }

  /** The filter keeps record order: filtering a concatenation concatenates the filtered parts. */
  lemma {:induction false} PositiveThroughputsAppend(front: seq<Record>, back: seq<Record>)
    ensures PositiveThroughputs(front + back) == PositiveThroughputs(front) + PositiveThroughputs(back)
    decreases |back|
  {
    if back == [] {
      assert front + back == front;
    } else {
      var init := back[..|back| - 1];
      assert (front + back)[..|front + back| - 1] == front + init;
      assert (front + back)[|front + back| - 1] == back[|back| - 1];
      PositiveThroughputsAppend(front, init);
    }
  }

  /** Every record is counted once: as a success or as a failure. */
  lemma {:induction false} CountsPartition(records: seq<Record>)
    ensures CountOk(records) + CountNotOk(records) == |records|
  {
    if records != [] {
      CountsPartition(records[..|records| - 1]);
    }
  }

  /**
   * Durations come from the successful records only, one each: every
   * duration is a successful record's, and every successful record's
   * duration is kept (OkDurationsAppend gives the order).
   */
  lemma {:induction false} DurationsOfSuccesses(records: seq<Record>)
    ensures |OkDurations(records)| == CountOk(records)
    ensures forall d :: d in OkDurations(records) ==> exists r :: r in records && r.status == OkStatus && r.duration == d
    ensures forall r :: r in records && r.status == OkStatus ==> r.duration in OkDurations(records)
  {
    if records != [] {
      var init := records[..|records| - 1];
      DurationsOfSuccesses(init);
      forall d | d in OkDurations(records)
        ensures exists r :: r in records && r.status == OkStatus && r.duration == d
      {
        if d in OkDurations(init) {
          var r :| r in init && r.status == OkStatus && r.duration == d;
          assert r in records;
        } else {
          assert records[|records| - 1] in records;
        }
      }
      forall r | r in records && r.status == OkStatus
        ensures r.duration in OkDurations(records)
      {
        if r != records[|records| - 1] {
          assert records == init + [records[|records| - 1]];
          assert r in init;
        }
      }
    }
  }

  /** Durations keep record order: collecting over a concatenation concatenates the collected parts. */
  lemma {:induction false} OkDurationsAppend(front: seq<Record>, back: seq<Record>)
    ensures OkDurations(front + back) == OkDurations(front) + OkDurations(back)
    decreases |back|
  {
    if back == [] {
      assert front + back == front;
    } else {
      var init := back[..|back| - 1];
      assert (front + back)[..|front + back| - 1] == front + init;
      assert (front + back)[|front + back| - 1] == back[|back| - 1];
      OkDurationsAppend(front, init);
    }
  }

  /** Every completed future contributes its record, and an exception contributes none. */
  lemma {:induction false} RecordsAccountForCompletions(completions: seq<Completion>)
    ensures |Records(completions)| <= |completions|
    ensures (forall k :: 0 <= k < |completions| ==> completions[k].Completed?) ==> |Records(completions)| == |completions|
  {
    if completions != [] {
      RecordsAccountForCompletions(completions[..|completions| - 1]);
    }
  }

  /** What `run_test` returns or how it ends. */
  datatype TestOutcome =
    | InvalidOperation
      // `executor_class` is assigned only for "thread" and "process": any other
      // executor type raises UnboundLocalError before a worker is started.
    | ExecutorUnbound
      // the executor refuses a pool of no workers: ValueError, "max_workers must
      // be greater than 0", raised before any worker is started
    | PoolSizeInvalid
      // no successful record: the summary without statistics
    | Counts(operation: Operation, fileSizeMb: int, clientPoolSize: int, executorType: string,
             successCount: nat, failCount: nat)
    | Statistics(operation: Operation, fileSizeMb: int, clientPoolSize: int, executorType: string,
                 durations: seq<real>, throughputs: seq<real>, successCount: nat, failCount: nat)

  /**
   * The summary of a test from its records. The averages, medians and
   * extremes the source computes from `durations` and `throughputs` are
   * floating point and are not part of this model.
   */
  function Summarise(op: Operation, fileSizeMb: int, clientPoolSize: int, executorType: string,
                     records: seq<Record>): (outcome: TestOutcome)
    ensures outcome.Counts? || outcome.Statistics?
    ensures outcome.successCount == CountOk(records) && outcome.failCount == CountNotOk(records)
    ensures outcome.successCount + outcome.failCount == |records|
    ensures outcome.Statistics? <==> outcome.successCount > 0
    ensures outcome.Statistics? ==> |outcome.durations| == outcome.successCount
    ensures outcome.Statistics? ==> outcome.durations == OkDurations(records)
    ensures outcome.Statistics? ==> outcome.throughputs == PositiveThroughputs(records)
    ensures && outcome.operation == op && outcome.fileSizeMb == fileSizeMb
            && outcome.clientPoolSize == clientPoolSize && outcome.executorType == executorType
  {
    CountsPartition(records);
    DurationsOfSuccesses(records);
    var durations := OkDurations(records);
    if durations == [] then
      Counts(op, fileSizeMb, clientPoolSize, executorType, CountOk(records), CountNotOk(records))
    else
      Statistics(op, fileSizeMb, clientPoolSize, executorType,
                 durations, PositiveThroughputs(records), CountOk(records), CountNotOk(records))
  }

  /**
   * The loop over `as_completed(futures)`: the record of every future that
   * completed, in completion order; a future that raised is logged and skipped.
   */
  method CollectResults(completions: seq<Completion>) returns (allResults: seq<Record>)
    ensures allResults == Records(completions)
  {
    allResults := [];
    var i := 0;
    while i < |completions|
      invariant 0 <= i <= |completions|
      invariant allResults == Records(completions[..i])
    {
      assert completions[..i + 1][..i] == completions[..i];
      match completions[i] {
        case Completed(record) =>
          assert (allResults + [record])[..|allResults|] == allResults;
          allResults := allResults + [record];
        case Raised(_) =>
      }
      i := i + 1;
    }
    assert completions[..|completions|] == completions;
  }

  /** The executor types `run_test` binds an executor class for. */
  predicate IsExecutor(executorType: string)
  {
    executorType == "thread" || executorType == "process"
  }

  /** A map with an entry for each of the three operations. */
  predicate HasEveryOperation<V>(m: map<Operation, V>)
  {
    Upload in m && Get in m && List in m
  }

  /** The load client's bookkeeping: per-operation results and counters. */
  class Client {
    var results: map<Operation, seq<Record>>
    var successCount: map<Operation, nat>
    var failCount: map<Operation, nat>

    /** Every operation has its list and its two counters. */
    ghost predicate Valid()
      reads this
    {
      HasEveryOperation(results) && HasEveryOperation(successCount) && HasEveryOperation(failCount)
    }

    constructor()
      ensures Valid()
      ensures forall op :: op in AllOperations ==> results[op] == [] && successCount[op] == 0 && failCount[op] == 0
    {
      results := map[Upload := [], Get := [], List := []];
      successCount := map[Upload := 0, Get := 0, List := 0];
      failCount := map[Upload := 0, Get := 0, List := 0];
    }

    /** `reset_counters`: every counter back to 0 and every results list emptied. */
    method ResetCounters()
      modifies this
      ensures Valid()
      ensures forall op :: op in AllOperations ==> results[op] == [] && successCount[op] == 0 && failCount[op] == 0
    {
      successCount := map[Upload := 0, Get := 0, List := 0];
      failCount := map[Upload := 0, Get := 0, List := 0];
      results := map[Upload := [], Get := [], List := []];
    }

    /**
     * `run_test` for `clientPoolSize` workers whose futures completed as
     * `completions`: one future per worker, in completion order. Each
     * completed record is appended to `results` for the operation. Each worker
     * adds its own record to the success or the failure counter of the
     * operation; those updates reach this client only under the thread
     * executor, since a process executor runs the workers on copies of it.
     */
    method RunTest(operation: string, fileSizeMb: int, clientPoolSize: int, executorType: string,
                   completions: seq<Completion>) returns (outcome: TestOutcome)
      requires Valid()
      requires clientPoolSize > 0 ==> |completions| == clientPoolSize
      modifies this
      ensures Valid()
      ensures ParseOperation(operation).None? ==> outcome == InvalidOperation && unchanged(this)
      ensures ParseOperation(operation).Some? && !IsExecutor(executorType) ==>
                outcome == ExecutorUnbound && unchanged(this)
      ensures ParseOperation(operation).Some? && IsExecutor(executorType) && clientPoolSize <= 0 ==>
                outcome == PoolSizeInvalid && unchanged(this)
      ensures ParseOperation(operation).Some? && IsExecutor(executorType) && clientPoolSize > 0 ==>
                var op := ParseOperation(operation).value;
                && results == old(results)[op := old(results)[op] + Records(completions)]
                && outcome == Summarise(op, fileSizeMb, clientPoolSize, executorType, Records(completions))
      ensures ParseOperation(operation).Some? && IsExecutor(executorType) && clientPoolSize > 0
              && (forall k :: 0 <= k < |completions| ==> completions[k].Completed?) ==>
                var op := ParseOperation(operation).value;
                |results[op]| == |old(results)[op]| + clientPoolSize
      ensures ParseOperation(operation).Some? && executorType == "thread" && clientPoolSize > 0 ==>
                var op := ParseOperation(operation).value;
                successCount == old(successCount)[op := old(successCount)[op] + CountOk(Records(completions))]
      ensures ParseOperation(operation).Some? && executorType == "thread" && clientPoolSize > 0 ==>
                var op := ParseOperation(operation).value;
                failCount == old(failCount)[op := old(failCount)[op] + CountNotOk(Records(completions))]
      ensures executorType == "process" ==> successCount == old(successCount) && failCount == old(failCount)
    {
      var parsed := ParseOperation(operation);
      if parsed.None? {
        return InvalidOperation;
      }
      var op := parsed.value;
      if !IsExecutor(executorType) {
        return ExecutorUnbound;
      }
      if clientPoolSize <= 0 {
        return PoolSizeInvalid;
      }
      RecordsAccountForCompletions(completions);
      var allResults := CollectResults(completions);
      AddResults(op, executorType, allResults);
      outcome := Summarise(op, fileSizeMb, clientPoolSize, executorType, allResults);
    }

    /**
     * The records of one test reach the client: appended to the operation's
     * results, and counted under the thread executor only.
     */
    method AddResults(op: Operation, executorType: string, allResults: seq<Record>)
      requires Valid() && IsExecutor(executorType)
      modifies this
      ensures Valid()
      ensures results == old(results)[op := old(results)[op] + allResults]
      ensures executorType == "thread" ==>
                && successCount == old(successCount)[op := old(successCount)[op] + CountOk(allResults)]
                && failCount == old(failCount)[op := old(failCount)[op] + CountNotOk(allResults)]
      ensures executorType == "process" ==> successCount == old(successCount) && failCount == old(failCount)
    {
      var newResults := results[op := results[op] + allResults];
      var newSuccess, newFail := successCount, failCount;
      if executorType == "thread" {
        newSuccess := successCount[op := successCount[op] + CountOk(allResults)];
        newFail := failCount[op := failCount[op] + CountNotOk(allResults)];
      }
      results, successCount, failCount := newResults, newSuccess, newFail;
    }
  }

  // ---------------------------------------------------------------------
  // record_upload naming and cleanup
  // ---------------------------------------------------------------------

  /** The name a worker uploads a file under: "worker_", its id, '_' and the file's basename. */
  function UploadName(filePath: string, workerId: nat): (name: string)
    ensures StartsWith(name, "worker_") && EndsWith(name, Basename(filePath))
  {
    WorkerPrefixPlain(workerId);
    PrefixedName(WorkerPrefix(workerId), Basename(filePath));
    WorkerPrefix(workerId) + Basename(filePath)
  }

  /** The characters of `str(n)` are digits only. */
  lemma DigitsOnly(n: nat)
    ensures '/' !in NatToString(n) && '.' !in NatToString(n) && '\0' !in NatToString(n)
  {
    var digits := NatToString(n);
    assert forall k :: 0 <= k < |digits| ==> digits[k] != '/' && digits[k] != '.' && digits[k] != '\0';
  }

  /**
   * An upload name is a plain directory entry the server stores under that
   * very name unless the file's own name holds a NUL character (which
   * `os.path.getsize` refuses before anything is sent), and the server's
   * `*.*` listing counts it exactly when the file's own name has a '.'.
   */
  lemma UploadNameIsStoredAsIs(filePath: string, workerId: nat)
    ensures '/' !in UploadName(filePath, workerId)
    ensures FileInterface.IsEntryName(UploadName(filePath, workerId)) <==> '\0' !in Basename(filePath)
    ensures Basename(UploadName(filePath, workerId)) == UploadName(filePath, workerId)
    ensures FileInterface.MatchesStarDotStar(UploadName(filePath, workerId)) <==> '.' in Basename(filePath)
  {
    var prefix := WorkerPrefix(workerId);
    var b := Basename(filePath);
    assert prefix + b == UploadName(filePath, workerId);
    WorkerPrefixPlain(workerId);
    PlainEntry(prefix, b);
    BasenameOfPlainName(prefix + b);
  }

  /** A 'w'-led plain prefix before a name without '/' gives an entry name unless the name holds NUL. */
  lemma PlainEntry(prefix: string, b: string)
    requires prefix != [] && prefix[0] == 'w'
    requires '/' !in prefix && '.' !in prefix && '\0' !in prefix && '/' !in b
    ensures '/' !in prefix + b
    ensures FileInterface.IsEntryName(prefix + b) <==> '\0' !in b
    ensures FileInterface.MatchesStarDotStar(prefix + b) <==> '.' in b
  {
    PlainJoin(prefix, b);
    assert (prefix + b)[0] == 'w';
  }

  /** The part of an upload name before the file's own name. */
  function WorkerPrefix(workerId: nat): string
  {
    "worker_" + NatToString(workerId) + "_"
  }

  /** In "worker_" + digits + "_" + base, the digits sit right after "worker_" and are followed by '_'. */
  lemma IdSlot(digits: string, base: string)
    ensures var name := "worker_" + digits + "_" + base;
            && 7 + |digits| < |name|
            && name[7..7 + |digits|] == digits
            && name[7 + |digits|] == '_'
  {
    var head := "worker_" + digits;
    var name := head + "_" + base;
    assert name[..|head|] == head;
    assert head[7..] == digits;
  }

  /**
   * Workers never upload under the same name: the upload names of two
   * different workers differ, whatever file they upload.
   */
  lemma UploadNamesDistinct(filePath: string, i: nat, j: nat)
    requires i != j
    ensures UploadName(filePath, i) != UploadName(filePath, j)
  {
    WorkerPrefixesDiffer(i, j, Basename(filePath));
  }

  /** Two different workers' prefixes stay different whatever follows them. */
  lemma WorkerPrefixesDiffer(i: nat, j: nat, base: string)
    requires i != j
    ensures WorkerPrefix(i) + base != WorkerPrefix(j) + base
  {
    var di, dj := NatToString(i), NatToString(j);
    IdSlot(di, base);
    IdSlot(dj, base);
    assert WorkerPrefix(i) + base == "worker_" + di + "_" + base;
    assert WorkerPrefix(j) + base == "worker_" + dj + "_" + base;
    if WorkerPrefix(i) + base == WorkerPrefix(j) + base && |di| == |dj| {
      NatToStringInjective(i, j);
    }
  }

  /** A name made of a "worker_" prefix and a base starts with "worker_" and ends with the base. */
  lemma PrefixedName(prefix: string, base: string)
    requires StartsWith(prefix, "worker_")
    ensures StartsWith(prefix + base, "worker_") && EndsWith(prefix + base, base)
  {
    var name := prefix + base;
    assert name[..7] == prefix[..7];
    assert name[|name| - |base|..] == base;
  }

  /** The worker prefix starts with 'w' and holds neither '/', '.' nor NUL. */
  lemma WorkerPrefixPlain(workerId: nat)
    ensures WorkerPrefix(workerId)[0] == 'w' && StartsWith(WorkerPrefix(workerId), "worker_")
    ensures '/' !in WorkerPrefix(workerId) && '.' !in WorkerPrefix(workerId) && '\0' !in WorkerPrefix(workerId)
  {
    DigitsOnly(workerId);
  }

  /** Joining two texts: '/', '.' and NUL occur in the whole exactly when in a part. */
  lemma PlainJoin(a: string, b: string)
    ensures '/' in a + b <==> '/' in a || '/' in b
    ensures '.' in a + b <==> '.' in a || '.' in b
    ensures '\0' in a + b <==> '\0' in a || '\0' in b
  {
    assert forall c :: c in a + b <==> c in a || c in b;
  }

  /** `cleanup`'s test for names in the server directory it may remove. */
  predicate IsTestArtifact(name: string): (artifact: bool)
    ensures artifact ==> FileInterface.MatchesStarDotStar(name)
  {
    var artifact := StartsWith(name, "worker_") && EndsWith(name, ".bin");
    assert artifact ==> name[0] == 'w' && name[|name| - 4] == '.' && name[|name| - 4] in name;
    artifact
  }

  /** A name after a '_' ends with ".bin" exactly when the whole does. */
  lemma BinSuffixAfterUnderscore(prefix: string, name: string)
    requires |prefix| > 0 && prefix[|prefix| - 1] == '_'
    ensures EndsWith(prefix + name, ".bin") <==> EndsWith(name, ".bin")
  {
    var whole := prefix + name;
    if |name| >= 4 {
      assert whole[|whole| - 4..] == name[|name| - 4..];
    } else if |whole| >= 4 {
      var i := 3 - |name|;
      assert whole[|whole| - 4..][i] == '_';
      assert ".bin"[i] != '_';
    }
  }

  /** Behind a "worker_..._" prefix, a name is a test artifact exactly when it ends with ".bin". */
  lemma ArtifactAfterWorkerPrefix(prefix: string, name: string)
    requires StartsWith(prefix, "worker_") && prefix[|prefix| - 1] == '_'
    ensures IsTestArtifact(prefix + name) <==> EndsWith(name, ".bin")
  {
    assert (prefix + name)[..7] == prefix[..7];
    BinSuffixAfterUnderscore(prefix, name);
  }

  /** An uploaded file is cleaned up afterwards exactly when its own name ends with ".bin". */
  lemma CleanupTakesUploads(filePath: string, workerId: nat)
    ensures IsTestArtifact(UploadName(filePath, workerId)) <==> EndsWith(Basename(filePath), ".bin")
  {
    var prefix := WorkerPrefix(workerId);
    assert prefix[..7] == "worker_";
    ArtifactAfterWorkerPrefix(prefix, Basename(filePath));
  }

  /** A directory as `os.listdir` and `os.path.isfile` see it: each name, and whether it is a regular file. */
  type Listing = map<string, bool>

  /** The listing without the given names. */
  function Without(dir: Listing, doomed: set<string>): (rest: Listing)
    ensures forall n :: n in rest <==> n in dir && n !in doomed
    ensures forall n :: n in rest ==> rest[n] == dir[n]
  {
    map n | n in dir && n !in doomed :: dir[n]
  }

  /** Every regular file in `downloads`. */
  function DownloadsToRemove(downloads: Listing): set<string>
  {
    set n | n in downloads && downloads[n]
  }

  /** The regular files in `files` that are test artifacts. */
  function FilesToRemove(files: Listing): set<string>
  {
    set n | n in files && files[n] && IsTestArtifact(n)
  }

  /** The first loop of `cleanup`: every regular file in `downloads` is removed. */
  method RemoveDownloads(downloads: Listing) returns (after: Listing)
    ensures after == Without(downloads, DownloadsToRemove(downloads))
  {
    after := downloads;
    var pending := downloads.Keys;
    while pending != {}
      invariant pending <= downloads.Keys
      invariant forall n :: n in after <==> n in downloads && (n in pending || !downloads[n])
      invariant forall n :: n in after ==> after[n] == downloads[n]
      decreases |pending|
    {
      var filename :| filename in pending;
      if downloads[filename] {
        after := after - {filename};
      }
      pending := pending - {filename};
    }
    assert after == Without(downloads, DownloadsToRemove(downloads));
  }

  /** The second loop of `cleanup`: only regular files named like test uploads leave `files`. */
  method RemoveTestFiles(files: Listing) returns (after: Listing)
    ensures after == Without(files, FilesToRemove(files))
  {
    after := files;
    var pending := files.Keys;
    while pending != {}
      invariant pending <= files.Keys
      invariant forall n :: n in after <==> n in files && (n in pending || !files[n] || !IsTestArtifact(n))
      invariant forall n :: n in after ==> after[n] == files[n]
      decreases |pending|
    {
      var filename :| filename in pending;
      if StartsWith(filename, "worker_") && EndsWith(filename, ".bin") {
        if files[filename] {
          after := after - {filename};
        }
      }
      pending := pending - {filename};
    }
    assert after == Without(files, FilesToRemove(files));
  }

  /**
   * `cleanup`: every regular file goes from `downloads`, and from `files` only
   * the regular files named like the test's uploads. Other entries stay.
   */
  method Cleanup(downloads: Listing, files: Listing) returns (downloadsAfter: Listing, filesAfter: Listing)
    ensures downloadsAfter == Without(downloads, DownloadsToRemove(downloads))
    ensures filesAfter == Without(files, FilesToRemove(files))
  {
    downloadsAfter := RemoveDownloads(downloads);
    filesAfter := RemoveTestFiles(files);
  }
}
