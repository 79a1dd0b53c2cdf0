/** The packet-framing receive loop of the socket server
    (server/aesdsocket.c), with the data file and the client socket
    reduced to byte sequences.

    The server is single-threaded: it serves one connection at a time. Each
    `recv` appends to a growable buffer; when the buffer holds a newline,
    the prefix through the FIRST newline is appended to the data file, the
    whole file is sent back, and that prefix is dropped from the buffer.
    Only one packet is framed per receive. */
module SocketServer {
  import opened Base

  /** `sizeof(recv_buf)`: the most one `recv` call delivers. */
  const RecvBufSize: nat := 1024

  /** Linux signal numbers the handler recognises. */
  const SIGINT: int := 2
  const SIGTERM: int := 15

  /** The state the receive loop works on: the framing buffer (`buf`,
      `buf_len`) and the data file, `None` while it does not exist. */
  datatype Server = Server(buf: seq<byte>, file: Option<seq<byte>>)

  /** Contents of a possibly absent file; an absent file reads as nothing. */
  function FileBytes(file: Option<seq<byte>>): seq<byte>
  {
    if file.Some? then file.value else []
  }

  /** Outcomes of the library calls in one receive iteration: whether
      `realloc` succeeds, whether the data file opens for appending, how
      many bytes a short `fwrite` stores (`None`: all of them), and whether
      the file opens for reading. */
  datatype Io = Io(reallocOk: bool, appendOpens: bool, shortWrite: Option<nat>, readOpens: bool)

  /** Every call succeeds. */
  const AllOk := Io(true, true, None, true)

  /** The bytes `fwrite` actually stores of `packet`. */
  function Written(packet: seq<byte>, shortWrite: Option<nat>): (w: seq<byte>)
    ensures w <= packet
    ensures shortWrite.None? ==> w == packet
  {
    if shortWrite.Some? && shortWrite.value < |packet| then packet[..shortWrite.value] else packet
  }

  /** Result of one loop iteration: either the loop goes on, having framed
      at most one `packet` and handed `sent` to `send`, or `realloc` failed
      and the loop broke off. */
  datatype Step =
    | Received(server: Server, packet: Option<seq<byte>>, sent: seq<byte>)
    | Aborted(server: Server)

  /** A complete packet: ends with the only newline it contains. */
  predicate IsPacket(p: seq<byte>)
  {
    |p| > 0 && p[|p| - 1] == Newline && Newline !in p[..|p| - 1]
  }

  /** One iteration of the receive loop for a `recv` that returned `chunk`. */
  function Receive(s: Server, chunk: seq<byte>, io: Io): (r: Step)
    requires 0 < |chunk| <= RecvBufSize
    ensures !io.reallocOk ==> r == Aborted(Server([], s.file))
    ensures io.reallocOk ==> r.Received?
    ensures r.Received? ==>
              && (r.packet.Some? <==> Newline in s.buf + chunk)
              && (r.packet.Some? ==> IsPacket(r.packet.value))
              && (if r.packet.Some? then r.packet.value else []) + r.server.buf == s.buf + chunk
    ensures r.Received? && r.packet.None? ==>
              r.server == Server(s.buf + chunk, s.file) && r.sent == []
    ensures r.Received? && r.packet.Some? ==>
              && |r.server.buf| == |s.buf| + |chunk| - |r.packet.value|
              && r.server.file == (if io.appendOpens then Some(FileBytes(s.file) + Written(r.packet.value, io.shortWrite)) else s.file)
              && r.sent == (if io.readOpens then FileBytes(r.server.file) else [])
  {
    if !io.reallocOk then
      Aborted(Server([], s.file))
    else
      var buf := s.buf + chunk;
      match FirstNewline(buf)
      case None => Received(Server(buf, s.file), None, [])
      case Some(i) =>
        var packetLength := i + 1;
        var packet := buf[..packetLength];
        assert packet[..|packet| - 1] == buf[..i];
        assert packet + buf[packetLength..] == buf;
        var file := if io.appendOpens then Some(FileBytes(s.file) + Written(packet, io.shortWrite)) else s.file;
        var sent := if io.readOpens && file.Some? then file.value else [];
        Received(Server(buf[packetLength..], file), Some(packet), sent)
  }

  /** `recv` returned 0 or -1: the partial packet is discarded, never
      committed, and the data file is left alone. */
  function Disconnect(s: Server): Server
  {
    Server([], s.file)
  }

  /** Only the first newline is acted on: when the buffer after a receive
      holds two newlines, the second one is still buffered afterwards. */
  lemma LaterNewlineStaysBuffered(s: Server, chunk: seq<byte>, io: Io, i: nat, j: nat)
    requires 0 < |chunk| <= RecvBufSize && io.reallocOk
    requires i < j < |s.buf + chunk| && (s.buf + chunk)[i] == Newline && (s.buf + chunk)[j] == Newline
    ensures var r := Receive(s, chunk, io);
            r.packet.Some? && Newline in r.server.buf
  {
  }

  /** A packet received whole on a fresh connection with an absent data
      file is echoed back unchanged. */
  lemma EchoOnEmptyStore(p: seq<byte>)
    requires |p| <= RecvBufSize && IsPacket(p)
    ensures Receive(Server([], None), p, AllOk) == Received(Server([], Some(p)), Some(p), p)
  {
    var r := Receive(Server([], None), p, AllOk);
    assert [] + p == p;
    assert Newline in p by { assert p[|p| - 1] == Newline; }
    assert r.packet.value + r.server.buf == p;
    assert r.packet.value == p;
  }

  // ---------------------------------------------------------------------
  // One connection

  /** The connection's receive loop when every call succeeds: each chunk is
      one `recv`; returns the state at disconnect (before the buffer is
      released) and the packets framed, in order. */
  function Serve(s: Server, chunks: seq<seq<byte>>): (r: (Server, seq<seq<byte>>))
    requires forall k :: 0 <= k < |chunks| ==> 0 < |chunks[k]| <= RecvBufSize
    decreases |chunks|
  {
    if |chunks| == 0 then (s, [])
    else
      var step := Receive(s, chunks[0], AllOk);
      var rest := Serve(step.server, chunks[1..]);
      (rest.0, Framed(step) + rest.1)
  }

  /** The packets one successful receive frames, as a list of zero or one. */
  function Framed(step: Step): seq<seq<byte>>
  {
    if step.Received? && step.packet.Some? then [step.packet.value] else []
  }

  lemma ReceiveFramed(s: Server, chunk: seq<byte>)
    requires 0 < |chunk| <= RecvBufSize
    ensures var step := Receive(s, chunk, AllOk);
            && Flatten(Framed(step)) + step.server.buf == s.buf + chunk
            && FileBytes(step.server.file) == FileBytes(s.file) + Flatten(Framed(step))
            && forall k :: 0 <= k < |Framed(step)| ==> IsPacket(Framed(step)[k])
  {
  }

  lemma Regroup(f: seq<byte>, g: seq<byte>, t: seq<byte>, m: seq<byte>, r: seq<byte>, b: seq<byte>, c: seq<byte>)
    requires g + t == m + r && f + m == b + c
    ensures (f + g) + t == b + (c + r)
  {
    calc {
      (f + g) + t;
      f + (g + t);
      f + (m + r);
      (f + m) + r;
      (b + c) + r;
    }
  }

  /** Over a whole connection no byte is lost or invented: the packets
      framed followed by what is still buffered are the old buffer followed
      by everything received. */
  lemma {:induction false} ServeConserves(s: Server, chunks: seq<seq<byte>>)
    requires forall k :: 0 <= k < |chunks| ==> 0 < |chunks[k]| <= RecvBufSize
    ensures Flatten(Serve(s, chunks).1) + Serve(s, chunks).0.buf == s.buf + Flatten(chunks)
    decreases |chunks|
  {
    if |chunks| > 0 {
      var step := Receive(s, chunks[0], AllOk);
      var first := Framed(step);
      var tail := Serve(step.server, chunks[1..]);
      assert Serve(s, chunks) == (tail.0, first + tail.1);
      ReceiveFramed(s, chunks[0]);
      ServeConserves(step.server, chunks[1..]);
      FlattenAppend(first, tail.1);
      assert Flatten(chunks) == chunks[0] + Flatten(chunks[1..]);
      Regroup(Flatten(first), Flatten(tail.1), tail.0.buf, step.server.buf, Flatten(chunks[1..]), s.buf, chunks[0]);
    } else {
      assert Flatten(chunks) == [];
    }
  }

  /** Over a whole connection the data file grows by exactly the packets
      framed, each of them a newline-terminated packet. */
  lemma {:induction false} ServeAppendsPackets(s: Server, chunks: seq<seq<byte>>)
    requires forall k :: 0 <= k < |chunks| ==> 0 < |chunks[k]| <= RecvBufSize
    ensures FileBytes(Serve(s, chunks).0.file) == FileBytes(s.file) + Flatten(Serve(s, chunks).1)
    ensures forall k :: 0 <= k < |Serve(s, chunks).1| ==> IsPacket(Serve(s, chunks).1[k])
    decreases |chunks|
  {
    if |chunks| > 0 {
      var step := Receive(s, chunks[0], AllOk);
      var first := Framed(step);
      var tail := Serve(step.server, chunks[1..]);
      var packets := first + tail.1;
      assert Serve(s, chunks) == (tail.0, packets);
      ReceiveFramed(s, chunks[0]);
      ServeAppendsPackets(step.server, chunks[1..]);
      FlattenAppend(first, tail.1);
      forall k | 0 <= k < |packets|
        ensures IsPacket(packets[k])
      {
        if k >= |first| {
          assert packets[k] == tail.1[k - |first|];
        }
      }
    }
  }

  /** A whole connection, as written and with every library call
      succeeding: when the client closes, the data file holds exactly the
      packets framed, and what is lost is exactly the buffered tail, so that
      packets and lost bytes together are the old buffer followed by
      everything received. */
  lemma ConnectionLosesOnlyTheTail(s: Server, chunks: seq<seq<byte>>)
    requires forall k :: 0 <= k < |chunks| ==> 0 < |chunks[k]| <= RecvBufSize
    ensures Disconnect(Serve(s, chunks).0).buf == []
    ensures FileBytes(Disconnect(Serve(s, chunks).0).file) == FileBytes(s.file) + Flatten(Serve(s, chunks).1)
    ensures Flatten(Serve(s, chunks).1) + Serve(s, chunks).0.buf == s.buf + Flatten(chunks)
  {
    ServeConserves(s, chunks);
    ServeAppendsPackets(s, chunks);
  }

  /** Connections are served one after another and share only the data
      file: a second client sending one packet after a first client's
      packet was stored receives both, oldest first. */
  lemma SecondClientSeesBoth(p: seq<byte>, q: seq<byte>)
    requires |p| <= RecvBufSize && IsPacket(p)
    requires |q| <= RecvBufSize && IsPacket(q)
    ensures var first := Receive(Server([], None), p, AllOk);
            var second := Receive(Disconnect(first.server), q, AllOk);
            second.sent == p + q
  {
    var first := Receive(Server([], None), p, AllOk);
    EchoOnEmptyStore(p);
    assert Disconnect(first.server) == Server([], Some(p));
    var second := Receive(Server([], Some(p)), q, AllOk);
    assert [] + q == q;
    assert Newline in q by { assert q[|q| - 1] == Newline; }
    assert second.packet.value + second.server.buf == q;
    assert second.packet.value == q;
  }

  // ---------------------------------------------------------------------
  // One packet per receive: what it loses, and the draining alternative

  /** As written, a client that sends two packets in one `recv` and then
      closes the connection loses the second: only "a\n" reaches the file
      and "b\n" is discarded with the partial buffer. */
  lemma CompletePacketDroppedOnClose()
    ensures var r := Receive(Server([], None), [97, 10, 98, 10], AllOk);
            && r.packet == Some([97, 10])
            && r.server.buf == [98, 10]
            && Disconnect(r.server).file == Some([97, 10])
  {
    var buf: seq<byte> := [97, 10, 98, 10];
    assert [] + buf == buf;
    assert buf[1..] == [10, 98, 10];
    assert FirstNewline(buf[1..]) == Some(0);
    assert FirstNewline(buf) == Some(1);
    assert buf[..2] == [97, 10] && buf[2..] == [98, 10];
    assert FileBytes(None) + buf[..2] == [97, 10];
  }

  /** Putting the packet that ends at the first newline in front of the
      framing of what follows it frames the whole buffer. */
  lemma PrependPacketBytes(buf: seq<byte>, i: nat, rest: seq<seq<byte>>, remainder: seq<byte>, packets: seq<seq<byte>>)
    requires i < |buf| && buf[i] == Newline && Newline !in buf[..i]
    requires Flatten(rest) + remainder == buf[i + 1..]
    requires packets == [buf[..i + 1]] + rest
    ensures Flatten(packets) + remainder == buf
  {
  }

  /** ... and every element of the result is a complete packet. */
  lemma PrependPacketShape(buf: seq<byte>, i: nat, rest: seq<seq<byte>>, packets: seq<seq<byte>>)
    requires i < |buf| && buf[i] == Newline && Newline !in buf[..i]
    requires forall k :: 0 <= k < |rest| ==> IsPacket(rest[k])
    requires packets == [buf[..i + 1]] + rest
    ensures forall k :: 0 <= k < |packets| ==> IsPacket(packets[k])
  {
  }

  /** Splits a buffer into every complete packet it holds, in order, and the
      unterminated remainder: the repeated scan of a draining receive. */
  function Frame(buf: seq<byte>): (r: (seq<seq<byte>>, seq<byte>))
    ensures Flatten(r.0) + r.1 == buf
    ensures Newline !in r.1
    ensures forall k :: 0 <= k < |r.0| ==> IsPacket(r.0[k])
    decreases |buf|
  {
    match FirstNewline(buf)
    case None => ([], buf)
    case Some(i) =>
      var rest := Frame(buf[i + 1..]);
      var packets := [buf[..i + 1]] + rest.0;
      PrependPacketBytes(buf, i, rest.0, rest.1, packets);
      PrependPacketShape(buf, i, rest.0, packets);
      (packets, rest.1)
  }

  /** The receive step with the packet check as a loop: every complete
      packet in the buffer is appended to the data file (each followed by an
      echo of the file, not modelled here) and only an unterminated
      remainder stays buffered. */
  function ReceiveAll(s: Server, chunk: seq<byte>): (r: Server)
    requires 0 < |chunk| <= RecvBufSize
    ensures Newline !in r.buf
    ensures FileBytes(r.file) + r.buf == FileBytes(s.file) + (s.buf + chunk)
    ensures FileBytes(r.file) == FileBytes(s.file) + Flatten(Frame(s.buf + chunk).0)
    ensures r.buf == Frame(s.buf + chunk).1
  {
    var framed := Frame(s.buf + chunk);
    var file := if |framed.0| == 0 then s.file else Some(FileBytes(s.file) + Flatten(framed.0));
    assert |framed.0| == 0 ==> Flatten(framed.0) == [];
    Server(framed.1, file)
  }

  /** With the draining receive, data that ends on a packet boundary is
      committed completely: nothing is left for a disconnect to discard. */
  lemma ReceiveAllCommitsWholePackets(s: Server, chunk: seq<byte>)
    requires 0 < |chunk| <= RecvBufSize && chunk[|chunk| - 1] == Newline
    ensures var r := ReceiveAll(s, chunk);
            r.buf == [] && r.file == Some(FileBytes(s.file) + s.buf + chunk)
  {
    var r := ReceiveAll(s, chunk);
    var all := FileBytes(s.file) + (s.buf + chunk);
    var kept := FileBytes(r.file);
    assert kept + r.buf == all;
    assert r.buf == all[|kept|..] && all[|all| - 1] == Newline;
    assert |r.buf| == 0;
    assert kept == all && |all| > 0;
    assert r.file.Some?;
    assert all == FileBytes(s.file) + s.buf + chunk;
  }

  /** The example above, with the draining receive: both packets reach the
      data file before the connection closes. */
  lemma DrainingKeepsBothPackets()
    ensures Disconnect(ReceiveAll(Server([], None), [97, 10, 98, 10])).file == Some([97, 10, 98, 10])
  {
    var buf: seq<byte> := [97, 10, 98, 10];
    ReceiveAllCommitsWholePackets(Server([], None), buf);
    assert FileBytes(None) + [] + buf == buf;
  }

  // ---------------------------------------------------------------------
  // Signals and exit

  /** signal_handler: SIGINT and SIGTERM raise the stop flag; any other
      signal number leaves it as it was. */
  function SignalHandler(caught: bool, signo: int): (r: bool)
    ensures caught ==> r
    ensures !caught ==> (r <==> signo == SIGINT || signo == SIGTERM)
  {
    if signo == SIGINT || signo == SIGTERM then true else caught
  }

  /** The stop flag after a run of handler invocations, one per signal
      number passed to `signal_handler`. */
  function HandleAll(caught: bool, signals: seq<int>): bool
    decreases |signals|
  {
    if |signals| == 0 then caught else HandleAll(SignalHandler(caught, signals[0]), signals[1..])
  }

  /** Starting from a clear flag, a run of handler invocations sets it exactly when one
      of them is SIGINT or SIGTERM. */
  lemma {:induction false} StopFlagIffTerminatingSignal(signals: seq<int>)
    ensures HandleAll(false, signals) <==> exists k :: 0 <= k < |signals| && (signals[k] == SIGINT || signals[k] == SIGTERM)
  {
    if |signals| > 0 {
      if signals[0] == SIGINT || signals[0] == SIGTERM {
        StaysSet(signals[1..]);
      } else {
        StopFlagIffTerminatingSignal(signals[1..]);
        if exists k :: 0 <= k < |signals[1..]| && (signals[1..][k] == SIGINT || signals[1..][k] == SIGTERM) {
          var k :| 0 <= k < |signals[1..]| && (signals[1..][k] == SIGINT || signals[1..][k] == SIGTERM);
          assert signals[k + 1] == signals[1..][k];
        }
        if exists k :: 0 <= k < |signals| && (signals[k] == SIGINT || signals[k] == SIGTERM) {
          var k :| 0 <= k < |signals| && (signals[k] == SIGINT || signals[k] == SIGTERM);
          assert k > 0;
          assert signals[1..][k - 1] == signals[k];
        }
      }
    }
  }

  lemma {:induction false} StaysSet(signals: seq<int>)
    ensures HandleAll(true, signals)
  {
    if |signals| > 0 {
      StaysSet(signals[1..]);
    }
  }

  /** What is left of the data file when `main` returns: removed when the
      stop flag was raised, untouched otherwise. */
  function Exit(caught: bool, file: Option<seq<byte>>): Option<seq<byte>>
  {
    if caught then None else file
  }

  /** `main` leaves the accept loop only once the stop flag is raised, and
      then removes the data file. After a run of handler invocations from a
      clear flag: if one of them was for SIGINT or SIGTERM the loop condition
      `!caught_signal` is false, so the loop ends the next time it is tested
      and the file is then removed; if none was, the condition still holds
      and the server goes on serving. */
  lemma ShutdownRemovesDataFile(signals: seq<int>, file: Option<seq<byte>>)
    ensures (exists k :: 0 <= k < |signals| && (signals[k] == SIGINT || signals[k] == SIGTERM)) ==>
              HandleAll(false, signals) && Exit(HandleAll(false, signals), file) == None
    ensures (forall k :: 0 <= k < |signals| ==> signals[k] != SIGINT && signals[k] != SIGTERM) ==>
              !HandleAll(false, signals)
  {
    StopFlagIffTerminatingSignal(signals);
  }
}
