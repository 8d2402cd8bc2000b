/**
 * The TIME server of tugas-2/server.py. Each connection is served by a
 * `ProcessTheClient` thread that reads up to 32 bytes at a time: a read that
 * starts with "TIME" and ends with "\r\n" is answered with the current time
 * as "JAM hh:mm:ss\r\n", a read that is exactly "QUIT\r\n" ends the session,
 * and anything else (the empty read of a closed peer included) is ignored.
 * The accept loop of `Server` starts one such thread per connection and keeps
 * it in `the_clients`.
 *
 * `datetime.now()` becomes a parameter: the clock reading taken for each read.
 */
module TimeServer {
  import opened Text

  /** One byte of a socket read or write. */
  newtype Byte = b: int | 0 <= b < 256

  type Bytes = seq<Byte>

  /** b'TIME' */
  const Time: Bytes := [0x54, 0x49, 0x4D, 0x45]
  /** b'\r\n' */
  const Crlf: Bytes := [0x0D, 0x0A]
  /** b'QUIT\r\n' */
  const Quit: Bytes := [0x51, 0x55, 0x49, 0x54, 0x0D, 0x0A]

  /**
   * `valid_data`: the three checks in the order the source makes them. The
   * first (empty data) is subsumed by the second.
   */
  function ValidData(data: Bytes): (valid: bool)
    ensures valid <==> StartsWith(data, Time) && EndsWith(data, Crlf)
  {
    if data == [] then false
    else if !StartsWith(data, Time) then false
    else if !EndsWith(data, Crlf) then false
    else true
  }

  /**
   * A valid request holds at least six bytes: "TIME" and "\r\n" cannot
   * overlap, so "TIME\r\n" is the shortest.
   */
  lemma ValidDataLength(data: Bytes)
    requires ValidData(data)
    ensures |data| >= 6
  {
    assert data[|data| - 2] == Crlf[0];
    forall i | 0 <= i < 4
      ensures data[i] != 0x0D
    {
      assert data[i] == data[..4][i];
    }
  }

  /** The empty read, "QUIT\r\n" and "TIME" without its line end are not requests; "TIMEX\r\n" is. */
  lemma ValidDataExamples()
    ensures !ValidData([])
    ensures !ValidData(Quit)
    ensures !ValidData(Time)
    ensures ValidData(Time + [0x58] + Crlf)
  {
    assert Quit[..4] != Time by { assert Quit[0] != Time[0]; }
    assert (Time + [0x58] + Crlf)[..4] == Time;
    assert (Time + [0x58] + Crlf)[5..] == Crlf;
  }

  /** A wall-clock reading, as `strftime("%H:%M:%S")` sees it. */
  datatype Clock = Clock(hour: nat, minute: nat, second: nat)
  {
    predicate Valid()
    {
      hour < 24 && minute < 60 && second < 60
    }
  }

  /** A number below 100 as two decimal digits, zero-padded (`%H`, `%M`, `%S`). */
  function TwoDigits(n: nat): (s: string)
    requires n < 100
    ensures |s| == 2
    ensures '0' <= s[0] <= '9' && '0' <= s[1] <= '9'
    ensures DigitValue(s[0]) * 10 + DigitValue(s[1]) == n
  {
    [Digit(n / 10), Digit(n % 10)]
  }

  /** `prepare_msg`: "JAM " followed by the time and "\r\n". */
  function PrepareMsg(now: Clock): (msg: string)
    requires now.Valid()
    ensures |msg| == 14
    ensures forall i :: 0 <= i < |msg| ==> msg[i] < 128 as char
  {
    "JAM " + TwoDigits(now.hour) + ":" + TwoDigits(now.minute) + ":" + TwoDigits(now.second) + "\r\n"
  }

  predicate IsDigitChar(c: char)
  {
    '0' <= c <= '9'
  }

  /** The two digits at positions i and i + 1 of msg, read as a number. */
  function DigitsAt(msg: string, i: nat): nat
    requires i + 1 < |msg| && IsDigitChar(msg[i]) && IsDigitChar(msg[i + 1])
  {
    DigitValue(msg[i]) * 10 + DigitValue(msg[i + 1])
  }

  /**
   * The shape of a reply, independent of how it is produced: fourteen
   * characters, "JAM ", three two-digit fields separated by ':' whose values
   * are an hour, a minute and a second, and "\r\n". It fits the 16 bytes the
   * client reads.
   */
  predicate IsJamMessage(msg: string)
  {
    && |msg| == 14
    && msg[..4] == "JAM "
    && msg[6] == ':' && msg[9] == ':'
    && msg[12..] == "\r\n"
    && (forall i | i in {4, 5, 7, 8, 10, 11} :: IsDigitChar(msg[i]))
    && DigitsAt(msg, 4) < 24 && DigitsAt(msg, 7) < 60 && DigitsAt(msg, 10) < 60
  }

  /** The time a reply announces. */
  function ReadClock(msg: string): Clock
    requires IsJamMessage(msg)
  {
    Clock(DigitsAt(msg, 4), DigitsAt(msg, 7), DigitsAt(msg, 10))
  }

  /** Every reply has the announced shape and announces exactly the clock reading it was made from. */
  lemma PrepareMsgRoundTrip(now: Clock)
    requires now.Valid()
    ensures IsJamMessage(PrepareMsg(now))
    ensures ReadClock(PrepareMsg(now)) == now
  {
    var msg := PrepareMsg(now);
    var h, m, s := TwoDigits(now.hour), TwoDigits(now.minute), TwoDigits(now.second);
    assert msg[4] == h[0] && msg[5] == h[1];
    assert msg[7] == m[0] && msg[8] == m[1];
    assert msg[10] == s[0] && msg[11] == s[1];
  }

  /** Conversely every message of that shape is the reply to the clock reading it announces. */
  lemma ReadClockRoundTrip(msg: string)
    requires IsJamMessage(msg)
    ensures ReadClock(msg).Valid()
    ensures PrepareMsg(ReadClock(msg)) == msg
  {
    var now := ReadClock(msg);
    var reply := PrepareMsg(now);
    assert 4 in {4, 5, 7, 8, 10, 11} && 5 in {4, 5, 7, 8, 10, 11};
    assert 7 in {4, 5, 7, 8, 10, 11} && 8 in {4, 5, 7, 8, 10, 11};
    assert 10 in {4, 5, 7, 8, 10, 11} && 11 in {4, 5, 7, 8, 10, 11};
    DigitPair(msg[4], msg[5], TwoDigits(now.hour));
    DigitPair(msg[7], msg[8], TwoDigits(now.minute));
    DigitPair(msg[10], msg[11], TwoDigits(now.second));
    forall i | 0 <= i < 14
      ensures reply[i] == msg[i]
    {
      if i < 4 {
        assert msg[i] == msg[..4][i];
      } else if i >= 12 {
        assert msg[i] == msg[12..][i - 12];
      }
    }
  }

  /** Two digit characters are determined by the number they spell. */
  lemma DigitPair(hi: char, lo: char, s: string)
    requires IsDigitChar(hi) && IsDigitChar(lo)
    requires |s| == 2 && IsDigitChar(s[0]) && IsDigitChar(s[1])
    requires DigitValue(s[0]) * 10 + DigitValue(s[1]) == DigitValue(hi) * 10 + DigitValue(lo)
    ensures s[0] == hi && s[1] == lo
  {
  }

  /** `msg.encode()` of an ASCII string: one byte per character, same code. */
  function Ascii(s: string): (bytes: Bytes)
    requires forall i :: 0 <= i < |s| ==> s[i] < 128 as char
    ensures |bytes| == |s|
    ensures forall i :: 0 <= i < |s| ==> bytes[i] as int == s[i] as int
  {
    if s == [] then [] else [AsciiByte(s[0])] + Ascii(s[1..])
  }

  /** The byte that encodes an ASCII character. */
  function AsciiByte(c: char): (b: Byte)
    requires c < 128 as char
    ensures b as int == c as int
  {
    c as int as Byte
  }

  /** The bytes sent in answer to a TIME request handled at clock reading now. */
  function Reply(now: Clock): Bytes
    requires now.Valid()
  {
    Ascii(PrepareMsg(now))
  }

  /** What a session does with its reads. */
  datatype Session = Session(sent: seq<Bytes>, quit: bool)

  /**
   * The replies sent for a run of reads, the k-th read being handled at clock
   * reading times[k], and whether a QUIT ended the loop.
   */
  function Serve(recvs: seq<Bytes>, times: seq<Clock>): (session: Session)
    requires |times| == |recvs|
    requires forall k :: 0 <= k < |times| ==> times[k].Valid()
    ensures |session.sent| <= |recvs|
  {
    if recvs == [] then Session([], false)
    else if ValidData(recvs[0]) then
      var rest := Serve(recvs[1..], times[1..]);
      Session([Reply(times[0])] + rest.sent, rest.quit)
    else if recvs[0] == Quit then Session([], true)
    else Serve(recvs[1..], times[1..])
  }

  /**
   * `ProcessTheClient.run` over a finite run of reads: the replies sent and
   * whether the loop ended on QUIT (otherwise it is still waiting for data).
   */
  method ServeClient(recvs: seq<Bytes>, times: seq<Clock>) returns (sent: seq<Bytes>, quit: bool)
    requires |times| == |recvs|
    requires forall k :: 0 <= k < |times| ==> times[k].Valid()
    ensures sent == Serve(recvs, times).sent
    ensures quit == Serve(recvs, times).quit
  {
    sent, quit := [], false;
    var i := 0;
    while i < |recvs|
      invariant 0 <= i <= |recvs|
      invariant Serve(recvs, times).sent == sent + Serve(recvs[i..], times[i..]).sent
      invariant Serve(recvs, times).quit == Serve(recvs[i..], times[i..]).quit
    {
      assert recvs[i..][1..] == recvs[i + 1..];
      assert times[i..][1..] == times[i + 1..];
      var data := recvs[i];
      if ValidData(data) {
        var msg := PrepareMsg(times[i]);
        sent := sent + [Ascii(msg)];
      } else if data == Quit {
        quit := true;
        break;
      }
      i := i + 1;
    }
  }

  /** The session ends on QUIT and on nothing else. */
  lemma {:induction false} QuitEndsSession(recvs: seq<Bytes>, times: seq<Clock>)
    requires |times| == |recvs|
    requires forall k :: 0 <= k < |times| ==> times[k].Valid()
    ensures Serve(recvs, times).quit <==> Quit in recvs
  {
    if recvs != [] {
      QuitEndsSession(recvs[1..], times[1..]);
      assert Quit in recvs <==> recvs[0] == Quit || Quit in recvs[1..] by {
        assert recvs == [recvs[0]] + recvs[1..];
      }
      ValidDataExamples();
    }
  }

  /**
   * Nothing after the first QUIT is read: the session over reads that end
   * with QUIT is the session over the reads before it, ended.
   */
  lemma {:induction false} NothingAfterQuit(before: seq<Bytes>, after: seq<Bytes>, times: seq<Clock>)
    requires |times| == |before| + 1 + |after|
    requires forall k :: 0 <= k < |times| ==> times[k].Valid()
    requires Quit !in before
    ensures Serve(before + [Quit] + after, times).sent == Serve(before, times[..|before|]).sent
    ensures Serve(before + [Quit] + after, times).quit
  {
    ValidDataExamples();
    var recvs := before + [Quit] + after;
    if before == [] {
      assert recvs[0] == Quit;
    } else {
      assert recvs[0] == before[0];
      assert recvs[1..] == before[1..] + [Quit] + after;
      assert times[..|before|][1..] == times[1..][..|before| - 1];
      NothingAfterQuit(before[1..], after, times[1..]);
    }
  }

  /**
   * A read that is neither a request nor QUIT, the empty read of a closed
   * peer included, is answered with nothing and does not end the session.
   */
  lemma IgnoredRead(data: Bytes, recvs: seq<Bytes>, now: Clock, times: seq<Clock>)
    requires !ValidData(data) && data != Quit
    requires |times| == |recvs|
    requires now.Valid() && forall k :: 0 <= k < |times| ==> times[k].Valid()
    ensures Serve([data] + recvs, [now] + times) == Serve(recvs, times)
  {
    assert ([data] + recvs)[1..] == recvs;
    assert ([now] + times)[1..] == times;
  }

  /**
   * A closed peer keeps the thread alive: however many empty reads follow, no
   * reply is sent and the loop does not end.
   */
  lemma {:induction false} EmptyReadsNeverEnd(recvs: seq<Bytes>, times: seq<Clock>)
    requires |times| == |recvs|
    requires forall k :: 0 <= k < |times| ==> times[k].Valid()
    requires forall k :: 0 <= k < |recvs| ==> recvs[k] == []
    ensures Serve(recvs, times) == Session([], false)
  {
    if recvs != [] {
      assert recvs[0] != Quit;
      EmptyReadsNeverEnd(recvs[1..], times[1..]);
    }
  }

  /**
   * Every reply of a session is "JAM hh:mm:ss\r\n" encoded, for the clock
   * reading taken when some request was handled.
   */
  lemma {:induction false} RepliesAreTimes(recvs: seq<Bytes>, times: seq<Clock>, j: nat)
    requires |times| == |recvs|
    requires forall k :: 0 <= k < |times| ==> times[k].Valid()
    requires j < |Serve(recvs, times).sent|
    ensures exists k :: 0 <= k < |recvs| && ValidData(recvs[k]) && Serve(recvs, times).sent[j] == Reply(times[k])
  {
    var sent := Serve(recvs, times).sent;
    var rest := Serve(recvs[1..], times[1..]).sent;
    if ValidData(recvs[0]) {
      assert sent == [Reply(times[0])] + rest;
      if j == 0 {
        assert sent[j] == Reply(times[0]);
      } else {
        RepliesAreTimes(recvs[1..], times[1..], j - 1);
        var k :| 0 <= k < |recvs[1..]| && ValidData(recvs[1..][k]) && rest[j - 1] == Reply(times[1..][k]);
        assert sent[j] == rest[j - 1];
        assert recvs[k + 1] == recvs[1..][k] && times[k + 1] == times[1..][k];
      }
    } else {
      assert recvs[0] != Quit;
      assert sent == rest;
      RepliesAreTimes(recvs[1..], times[1..], j);
      var k :| 0 <= k < |recvs[1..]| && ValidData(recvs[1..][k]) && rest[j] == Reply(times[1..][k]);
      assert recvs[k + 1] == recvs[1..][k] && times[k + 1] == times[1..][k];
    }
  }

  /** A thread serving one accepted connection. */
  datatype ClientThread = ClientThread(connection: nat, address: string)

  /** The accept loop and the list of client threads it has started. */
  class Server {
    var theClients: seq<ClientThread>

    constructor()
      ensures theClients == []
    {
      theClients := [];
    }

    /**
     * `Server.run` over the connections `accept` returned, in order: one
     * client thread is started and appended per connection.
     */
    method Run(accepted: seq<(nat, string)>)
      modifies this
      ensures |theClients| == |old(theClients)| + |accepted|
      ensures theClients[..|old(theClients)|] == old(theClients)
      ensures forall k :: 0 <= k < |accepted| ==>
        theClients[|old(theClients)| + k] == ClientThread(accepted[k].0, accepted[k].1)
    {
      var i := 0;
      while i < |accepted|
        invariant 0 <= i <= |accepted|
        invariant |theClients| == |old(theClients)| + i
        invariant theClients[..|old(theClients)|] == old(theClients)
        invariant forall k :: 0 <= k < i ==>
          theClients[|old(theClients)| + k] == ClientThread(accepted[k].0, accepted[k].1)
      {
        var (connection, address) := accepted[i];
        var clt := ClientThread(connection, address);
        theClients := theClients + [clt];
        i := i + 1;
      }
    }
  }
}
