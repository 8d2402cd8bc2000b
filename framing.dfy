/**
 * The per-connection loop `ProcessTheClient` of the file server. The
 * process-pool server (tugas-ets/processpool_server.py) and the thread-pool
 * server (tugas-ets/threadpool_server.py) carry identical copies of it.
 *
 * A session is the sequence of what `recv` returned, already decoded to
 * text; the empty string is the empty read of a closed peer. Text is added
 * to a buffer, and whenever the buffer ends with the terminator
 * "\r\n\r\n" the buffer without its last four characters goes to the
 * protocol handler, the handler's answer plus the terminator is sent back,
 * and the buffer starts again empty. The handler (`FileProtocol.proses_string`)
 * is a parameter.
 */
module Framing {
  import opened Text

  const Terminator: string := "\r\n\r\n"

  /** What a session does with its chunks. */
  datatype Framed = Framed(commands: seq<string>, pending: string, closed: bool)

  /**
   * The commands handed to the handler when `chunks` arrive on a session whose
   * buffer holds `buffer`, the buffer left afterwards, and whether an empty
   * read closed the session.
   */
  function Frame(buffer: string, chunks: seq<string>): (r: Framed)
    ensures r.closed <==> "" in chunks
    decreases |chunks|
  {
    if chunks == [] then Framed([], buffer, false)
    else if chunks[0] == "" then Framed([], buffer, true)
    else
      var received := buffer + chunks[0];
      if EndsWith(received, Terminator) then
        var rest := Frame("", chunks[1..]);
        Framed([received[..|received| - 4]] + rest.commands, rest.pending, rest.closed)
      else Frame(received, chunks[1..])
  }

  /** What is sent back for one command. */
  function Reply(handler: string -> string, command: string): string
  {
    handler(command) + Terminator
  }

  /** The replies to a sequence of commands, in order. */
  function Replies(handler: string -> string, commands: seq<string>): (replies: seq<string>)
    ensures |replies| == |commands|
    ensures forall k :: 0 <= k < |commands| ==> replies[k] == Reply(handler, commands[k])
  {
    if commands == [] then [] else [Reply(handler, commands[0])] + Replies(handler, commands[1..])
  }

  /** The wire form of dispatched commands: each followed by the terminator it was framed by. */
  function Joined(commands: seq<string>): string
  {
    if commands == [] then [] else commands[0] + Terminator + Joined(commands[1..])
  }

  /** All chunks up to the first empty one, that is, what the session received. */
  function Received(chunks: seq<string>): string
  {
    if chunks == [] || chunks[0] == "" then [] else chunks[0] + Received(chunks[1..])
  }

  /**
   * `ProcessTheClient`: the replies sent on one connection, and whether the
   * loop ended on an empty read. Nothing is sent after the peer closes.
   */
  method ProcessTheClient(chunks: seq<string>, handler: string -> string) returns (sent: seq<string>, closed: bool)
    ensures sent == Replies(handler, Frame("", chunks).commands)
    ensures closed == Frame("", chunks).closed
  {
    var dataReceived := "";
    sent := [];
    closed := false;
    var i := 0;
    while i < |chunks|
      invariant 0 <= i <= |chunks|
      invariant Replies(handler, Frame("", chunks).commands) == sent + Replies(handler, Frame(dataReceived, chunks[i..]).commands)
      invariant Frame("", chunks).closed == Frame(dataReceived, chunks[i..]).closed
    {
      var data := chunks[i];
      if data == "" {
        closed := true;
        break;
      }
      FrameStep(handler, dataReceived, chunks[i..]);
      assert chunks[i..][0] == data && chunks[i..][1..] == chunks[i + 1..];
      dataReceived := dataReceived + data;
      if EndsWith(dataReceived, Terminator) {
        var hasil := handler(dataReceived[..|dataReceived| - 4]);
        hasil := hasil + Terminator;
        sent := sent + [hasil];
        dataReceived := "";
      }
      i := i + 1;
    }
  }

  /** One non-empty read: either it completes a command, whose reply comes first, or it only grows the buffer. */
  lemma FrameStep(handler: string -> string, buffer: string, chunks: seq<string>)
    requires chunks != [] && chunks[0] != ""
    ensures var received := buffer + chunks[0];
            if EndsWith(received, Terminator) then
              && Replies(handler, Frame(buffer, chunks).commands)
                   == [Reply(handler, received[..|received| - 4])] + Replies(handler, Frame("", chunks[1..]).commands)
              && Frame(buffer, chunks).closed == Frame("", chunks[1..]).closed
            else Frame(buffer, chunks) == Frame(received, chunks[1..])
  {
    var received := buffer + chunks[0];
    if EndsWith(received, Terminator) {
      var rest := Frame("", chunks[1..]).commands;
      var commands := [received[..|received| - 4]] + rest;
      assert commands[0] == received[..|received| - 4] && commands[1..] == rest;
    }
  }

  /** Every reply ends with the terminator and carries the handler's answer before it. */
  lemma RepliesAreTerminated(handler: string -> string, commands: seq<string>, k: nat)
    requires k < |commands|
    ensures EndsWith(Replies(handler, commands)[k], Terminator)
    ensures Replies(handler, commands)[k][..|Replies(handler, commands)[k]| - 4] == handler(commands[k])
  {
  }

  /**
   * Nothing is lost or invented: the commands, each with the terminator that
   * ended it, followed by the buffer left over, are exactly the buffer the
   * session started with followed by everything it received.
   */
  lemma {:induction false} FrameConserves(buffer: string, chunks: seq<string>)
    ensures Joined(Frame(buffer, chunks).commands) + Frame(buffer, chunks).pending == buffer + Received(chunks)
    decreases |chunks|
  {
    if chunks != [] && chunks[0] != "" {
      var received := buffer + chunks[0];
      assert buffer + Received(chunks) == received + Received(chunks[1..]);
      if EndsWith(received, Terminator) {
        var command := received[..|received| - 4];
        var rest := Frame("", chunks[1..]);
        FrameConserves("", chunks[1..]);
        assert Joined(rest.commands) + rest.pending == Received(chunks[1..]);
        assert Frame(buffer, chunks) == Framed([command] + rest.commands, rest.pending, rest.closed);
        JoinedCons(command, rest.commands);
        assert command + Terminator == received;
      } else {
        FrameConserves(received, chunks[1..]);
      }
    }
  }

  /** The wire form of a command followed by more commands. */
  lemma JoinedCons(command: string, commands: seq<string>)
    ensures Joined([command] + commands) == command + Terminator + Joined(commands)
  {
    assert ([command] + commands)[0] == command && ([command] + commands)[1..] == commands;
  }

  /**
   * Any way of splitting one command and its terminator over non-empty chunks
   * dispatches that command exactly once, provided no earlier read boundary
   * already ends with the terminator; the buffer is empty afterwards.
   */
  lemma {:induction false} SplitCommandDispatchedOnce(buffer: string, chunks: seq<string>, command: string)
    requires chunks != []
    requires forall k :: 0 <= k < |chunks| ==> chunks[k] != ""
    requires buffer + Concat(chunks) == command + Terminator
    requires forall k :: 1 <= k < |chunks| ==> !EndsWith(buffer + Concat(chunks[..k]), Terminator)
    ensures Frame(buffer, chunks) == Framed([command], "", false)
    decreases |chunks|
  {
    var received := buffer + chunks[0];
    ShiftBuffer(buffer, chunks, |chunks| - 1);
    assert chunks[..|chunks|] == chunks;
    if |chunks| == 1 {
      assert received == command + Terminator;
      assert received[..|received| - 4] == command;
    } else {
      ShiftBuffer(buffer, chunks, 0);
      assert !EndsWith(buffer + Concat(chunks[..1]), Terminator);
      assert !EndsWith(received, Terminator);
      forall k | 1 <= k < |chunks[1..]|
        ensures !EndsWith(received + Concat(chunks[1..][..k]), Terminator)
      {
        ShiftBuffer(buffer, chunks, k);
      }
      assert chunks[1..][..|chunks| - 1] == chunks[1..];
      SplitCommandDispatchedOnce(received, chunks[1..], command);
    }
  }

  /** Moving the first chunk into the buffer leaves every prefix of the stream as it was. */
  lemma ShiftBuffer(buffer: string, chunks: seq<string>, k: nat)
    requires k < |chunks|
    ensures (buffer + chunks[0]) + Concat(chunks[1..][..k]) == buffer + Concat(chunks[..k + 1])
  {
    ConcatPrefixStep(chunks, k);
  }

  /**
   * No pipelining: two commands that arrive in one read are handed to the
   * handler as one text, the inner terminator included.
   */
  lemma TwoCommandsInOneRead(first: string, second: string)
    ensures Frame("", [first + Terminator + second + Terminator]).commands == [first + Terminator + second]
  {
    var received := "" + (first + Terminator + second + Terminator);
    assert received[..|received| - 4] == first + Terminator + second;
  }

  /** An empty read ends the session at once: nothing more is dispatched or sent. */
  lemma EmptyReadCloses(buffer: string, rest: seq<string>)
    ensures Frame(buffer, [""] + rest) == Framed([], buffer, true)
  {
  }

  /**
   * While no read boundary ends with the terminator nothing is dispatched and
   * the chunks simply pile up in the buffer.
   */
  lemma {:induction false} NoTerminatorNoDispatch(buffer: string, chunks: seq<string>)
    requires forall k :: 0 <= k < |chunks| ==> chunks[k] != ""
    requires forall k :: 1 <= k <= |chunks| ==> !EndsWith(buffer + Concat(chunks[..k]), Terminator)
    ensures Frame(buffer, chunks) == Framed([], buffer + Concat(chunks), false)
    decreases |chunks|
  {
    if chunks != [] {
      var received := buffer + chunks[0];
      forall k | 1 <= k <= |chunks[1..]|
        ensures !EndsWith(received + Concat(chunks[1..][..k]), Terminator)
      {
        ShiftBuffer(buffer, chunks, k);
      }
      ShiftBuffer(buffer, chunks, 0);
      assert !EndsWith(buffer + Concat(chunks[..1]), Terminator);
      ShiftBuffer(buffer, chunks, |chunks| - 1);
      assert chunks[..|chunks|] == chunks && chunks[1..][..|chunks| - 1] == chunks[1..];
      NoTerminatorNoDispatch(received, chunks[1..]);
    }
  }

  /**
   * Framing depends on where the chunks are cut: a command that itself ends
   * with "\r\n" is dispatched whole when it arrives in one read, but cut
   * short when the read boundary falls two characters early.
   */
  lemma CommandEndingInCrlf()
    ensures Frame("", ["A\r\n\r\n\r\n"]) == Framed(["A\r\n"], "", false)
    ensures Frame("", ["A\r\n\r\n", "\r\n"]) == Framed(["A"], "\r\n", false)
  {
    var one := "" + "A\r\n\r\n\r\n";
    assert EndsWith(one, Terminator);
    assert one[..|one| - 4] == "A\r\n";
    var two := "" + "A\r\n\r\n";
    assert EndsWith(two, Terminator);
    assert two[..|two| - 4] == "A";
    assert !EndsWith("" + "\r\n", Terminator);
  }
}
