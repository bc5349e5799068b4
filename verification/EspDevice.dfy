/** The device's end of the connection: the WebSocket event handler, and the TCP client with its loop. */
module EspDevice {
  import opened ClickSpec
  import opened ClickLive
  import opened DesktopApp

  /** The device and the wire as the protocol sees them, beside a desktop in state `d`. */
  ghost function Around(d: Desk, wire: Wire, owed: seq<nat>): World {
    World(Link(d, wire), owed)
  }

  /** A message is taken and, if its kind asks for it, answered. */
  ghost function WsServed(w: World): World
    requires w.link.wire.wsDown != []
  {
    var taken := DeviceWs(w);
    if taken.owed == [] then taken else DeviceReply(taken)
  }

  /** The data event of `websocketEventHandler`. */
  method WebsocketData(conn: Connection)
    requires conn.wsDown != []
    modifies conn
    ensures forall d: Desk | d.connType == WebSocket ::
              Around(d, conn.View(), []) == WsServed(Around(d, old(conn.View()), []))
    ensures
      var m := old(conn.wsDown)[0];
      if m.opcode == 2 || (m.opcode == 8 && |m.cells| == 2) then
        conn.wsUp == old(conn.wsUp)
      else
        exists reply :: conn.wsUp == old(conn.wsUp) + [Message(1, reply)] && Text(reply) == "received"
  {
    var data := conn.wsDown[0];
    conn.wsDown := conn.wsDown[1..];
    if data.opcode == BINARY {
      // Logged only.
    } else if data.opcode == CLOSE && |data.cells| == 2 {
      // Logged only.
    } else {
      conn.wsUp := conn.wsUp + [Message(TEXT, Tagged(RECEIVED, ClickOf(data.cells)))];
    }
  }

  /**
   What happens in one round of the TCP loop: the bytes that arrive before its `recv`, the byte count or
   negative error that `recv` gives, and the count or negative error that `send` gives.
   */
  datatype Outcome = Outcome(arriving: seq<Cell>, received: int, sent: int)

  /** `recv` gives no more than has arrived and fits its buffer, `send` takes no more than the reply. */
  predicate Sensible(down: seq<Cell>, o: Outcome) {
    o.received <= |down + o.arriving| && o.received <= |CLICK| && o.sent <= |RECEIVED|
  }

  function Receivable(down: seq<Cell>, o: Outcome): (seq<Cell>, seq<Cell>)
    requires Sensible(down, o) && o.received >= 0
  {
    ((down + o.arriving)[..o.received], (down + o.arriving)[o.received..])
  }

  predicate AllSensible(down: seq<Cell>, script: seq<Outcome>)
    decreases |script|
  {
    script == [] ||
    (&& Sensible(down, script[0])
     && (script[0].received >= 0 && script[0].sent >= 0 ==> AllSensible(Receivable(down, script[0]).1, script[1..])))
  }

  /** The rounds until the first failure. */
  function Rounds(script: seq<Outcome>): (n: nat)
    ensures n <= |script|
    ensures forall i | 0 <= i < n :: script[i].received >= 0 && script[i].sent >= 0
    ensures n < |script| ==> script[n].received < 0 || script[n].sent < 0
    decreases |script|
  {
    if script == [] || script[0].received < 0 || script[0].sent < 0 then 0 else 1 + Rounds(script[1..])
  }

  /** What a script makes the device send: for each `recv`, as much of a reply as `send` takes. */
  function RepliesOf(down: seq<Cell>, script: seq<Outcome>): seq<Cell>
    requires AllSensible(down, script)
    decreases |script|
  {
    if script == [] || script[0].received < 0 || script[0].sent < 0 then []
    else
      var (taken, left) := Receivable(down, script[0]);
      Tagged(RECEIVED, ClickOf(taken))[..script[0].sent] + RepliesOf(left, script[1..])
  }

  /** What the first round of a script adds. */
  lemma FirstRound(down: seq<Cell>, script: seq<Outcome>)
    requires AllSensible(down, script)
    ensures
      if script == [] || script[0].received < 0 || script[0].sent < 0 then
        Rounds(script) == 0 && RepliesOf(down, script) == []
      else
        var (taken, left) := Receivable(down, script[0]);
        && AllSensible(left, script[1..]) && Rounds(script) == 1 + Rounds(script[1..])
        && RepliesOf(down, script) ==
           Tagged(RECEIVED, ClickOf(taken))[..script[0].sent] + RepliesOf(left, script[1..])
    ensures script != [] ==> Sensible(down, script[0])
  {
  }

  /** When each `send` takes a whole reply, the device sends `received` once for each round. */
  lemma {:induction false} WholeReplies(down: seq<Cell>, script: seq<Outcome>)
    requires AllSensible(down, script) && forall o | o in script :: o.sent == 8
    ensures Text(RepliesOf(down, script)) == Repeat("received", Rounds(script))
    decreases |script|
  {
    hide Text, Tagged, Receivable, ClickOf, Sensible;
    FirstRound(down, script);
    if script != [] && script[0].received >= 0 {
      var (taken, left) := Receivable(down, script[0]);
      WholeReplies(left, script[1..]);
      var reply := Tagged(RECEIVED, ClickOf(taken));
      assert reply[..8] == reply;
      TextConcat(reply, RepliesOf(left, script[1..]));
    }
  }

  class TcpClient {
    const conn: Connection
    var sock: int

    constructor (conn: Connection)
      ensures this.conn == conn && sock == -1
    {
      this.conn := conn;
      sock := -1;
    }

    /** `fd` is what `socket` returns, `connected` whether `connect` succeeds. */
    method ConnectToServer(fd: int, connected: bool) returns (err: int)
      modifies this
      ensures err == (if fd >= 0 && connected then 0 else -1)
      ensures sock == (if fd >= 0 && !connected then -1 else fd)
    {
      sock := fd;
      if sock < 0 {
        return -1;
      }
      if !connected {
        sock := -1;
        return -1;
      }
      return 0;
    }

    /** `sent` is what `send` returns: a negative error, or how many bytes it took. It may take fewer than all. */
    method SendData(data: seq<Cell>, sent: int) returns (err: int)
      requires sent <= |data|
      modifies conn`tcpUp
      ensures err == (if sock >= 0 && sent >= 0 then 0 else -1)
      ensures conn.tcpUp == if err == 0 then old(conn.tcpUp) + data[..sent] else old(conn.tcpUp)
    {
      if sock < 0 {
        return -1;
      }
      if sent < 0 {
        return -1;
      }
      conn.tcpUp := conn.tcpUp + data[..sent];
      return 0;
    }

    /**
     `received` is what `recv` returns. The buffer is the string with its terminating zero, which `recv`
     may fill as well. A `recv` of zero bytes, the peer having closed, is no error here.
     */
    method ReceiveData(data: array<Cell>, received: int) returns (err: int)
      requires received <= data.Length && received <= |conn.tcpDown|
      modifies data, conn`tcpDown
      ensures err == (if sock >= 0 && received >= 0 then 0 else -1)
      ensures err != 0 ==> conn.tcpDown == old(conn.tcpDown) && data[..] == old(data[..])
      ensures err == 0 ==>
                && old(conn.tcpDown) == data[..received] + conn.tcpDown
                && data[received..] == old(data[received..])
    {
      if sock < 0 {
        return -1;
      }
      if received < 0 {
        return -1;
      }
      forall i | 0 <= i < received {
        data[i] := conn.tcpDown[i];
      }
      conn.tcpDown := conn.tcpDown[received..];
      return 0;
    }

    method Disconnect()
      modifies this
      ensures sock == -1
    {
      if sock != -1 {
        sock := -1;
      }
    }

    /**
     One round of the loop of `tcpAppStart`. Each `recv` that does not fail is answered, whatever it
     returned; a failure ends the loop.
     */
    method ServeOnce(buffer: array<Cell>, o: Outcome) returns (served: bool)
      requires buffer.Length == |CLICK| && Sensible(conn.tcpDown, o)
      modifies buffer, conn`tcpDown, conn`tcpUp
      ensures served <==> sock >= 0 && o.received >= 0 && o.sent >= 0
      ensures
        var down := old(conn.tcpDown);
        && conn.tcpDown == (if sock >= 0 && o.received >= 0 then Receivable(down, o).1 else down + o.arriving)
        && conn.tcpUp == old(conn.tcpUp) +
                         if served then Tagged(RECEIVED, ClickOf(Receivable(down, o).0))[..o.sent] else []
      ensures served && o.sent == |RECEIVED| ==>
                forall d: Desk | d.connType == CustomTcp ::
                  var wire := old(conn.View());
                  Around(d, conn.View(), []) ==
                  DeviceReply(DeviceTcp(Around(d, wire.(tcpDown := wire.tcpDown + o.arriving), []), o.received))
    {
      conn.tcpDown := conn.tcpDown + o.arriving;
      ghost var down := conn.tcpDown;
      var err := ReceiveData(buffer, o.received);
      if err != 0 {
        return false;
      }
      assert down[..o.received] == buffer[..o.received] && conn.tcpDown == down[o.received..];
      var reply := Tagged(RECEIVED, if o.received == 0 then 0 else buffer[0].click);
      assert ClickOf(down[..o.received]) == if o.received == 0 then 0 else buffer[0].click;
      assert reply[..|RECEIVED|] == reply;
      err := SendData(reply, o.sent);
      served := err == 0;
    }

    /** The loop of `tcpAppStart`, until the first failure or the end of the script. */
    method TcpAppStart(script: seq<Outcome>) returns (rounds: nat)
      requires AllSensible(conn.tcpDown, script)
      modifies conn`tcpDown, conn`tcpUp
      ensures rounds == (if sock >= 0 then Rounds(script) else 0)
      ensures conn.tcpUp == old(conn.tcpUp) + if sock >= 0 then RepliesOf(old(conn.tcpDown), script) else []
    {
      hide AllSensible, Rounds, RepliesOf, Receivable, Sensible, Tagged, ClickOf;
      var buffer := new Cell[|CLICK|](_ => Cell('\0', 0));
      ghost var down, up := conn.tcpDown, conn.tcpUp;
      rounds := 0;
      assert script[0..] == script;
      while rounds < |script|
        invariant rounds <= |script|
        invariant AllSensible(conn.tcpDown, script[rounds..])
        invariant sock >= 0 ==> Rounds(script) == rounds + Rounds(script[rounds..])
        invariant sock >= 0 ==>
                    conn.tcpUp + RepliesOf(conn.tcpDown, script[rounds..]) == up + RepliesOf(down, script)
        invariant sock < 0 ==> rounds == 0 && conn.tcpUp == up
      {
        ghost var here, before, rest := conn.tcpDown, conn.tcpUp, script[rounds..];
        assert rest[0] == script[rounds] && rest[1..] == script[rounds + 1..];
        FirstRound(here, rest);
        var served := ServeOnce(buffer, script[rounds]);
        if !served {
          assert before + [] == before;
          return;
        }
        ghost var reply := Tagged(RECEIVED, ClickOf(Receivable(here, rest[0]).0))[..rest[0].sent];
        ghost var later := RepliesOf(conn.tcpDown, rest[1..]);
        assert before + (reply + later) == before + reply + later;
        rounds := rounds + 1;
      }
      FirstRound(conn.tcpDown, script[rounds..]);
      assert conn.tcpUp + [] == conn.tcpUp;
    }
  }
}
