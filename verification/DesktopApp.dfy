/** The desktop application's state and handlers, working in place. */
module DesktopApp {
  import opened ClickSpec
  import opened ClickInvariant

  /** What is on its way between the desktop and the device. */
  class Connection {
    var wsDown: seq<Message>
    var wsUp: seq<Message>
    var tcpDown: seq<Cell>
    var tcpUp: seq<Cell>

    constructor ()
      ensures View() == QUIET
    {
      wsDown, wsUp, tcpDown, tcpUp := [], [], [], [];
    }

    ghost function View(): Wire
      reads this
    {
      Wire(wsDown, wsUp, tcpDown, tcpUp)
    }
  }

  /** A frame may run: no null socket would be used, and no read started beside another. */
  predicate Safe(clock: Clock, k: Link) {
    && (k.desk.uiEvents != [] ==> Connected(k.desk))
    && CanHandleAll(clock, ClickSpec.ProcessUiEvents(clock, k).desk, k.desk.ioResults)
  }

  /** In every state that keeps the invariant a frame may run. */
  lemma FramesAreSafe(clock: Clock, w: World)
    requires Inv(clock, w)
    ensures Safe(clock, w.link)
  {
  }

  class AppState {
    const clock: Clock
    const conn: Connection
    const connType: ConnectionType

    var accepting: bool
    var reading: bool
    var gathered: nat
    var uiEventsToProcess: seq<UIEvent>
    var ioResults: seq<IOResult>
    var ws: bool
    var tcpSock: bool
    var wsReadBuffer: seq<Cell>
    var tcpReadBuf: seq<Cell>
    var isSendingBlinkCommand: bool
    var timeSendBlinkCommand: int
    var blinkLatency: int
    var readings: nat
    var sends: seq<nat>

    ghost var ended: bool
    ghost var replies: seq<Reply>

    ghost function View(): Desk
      reads this
    {
      Desk(connType, accepting, reading, gathered, uiEventsToProcess, ioResults, ws, tcpSock, wsReadBuffer,
           tcpReadBuf, isSendingBlinkCommand, timeSendBlinkCommand, blinkLatency, ended,
           Log(readings, sends, replies))
    }

    ghost function Both(): Link
      reads this, conn
    {
      Link(View(), conn.View())
    }

    constructor (clock: Clock, conn: Connection, connType: ConnectionType)
      ensures this.clock == clock && this.conn == conn && View() == InitDesk(connType)
    {
      this.clock, this.conn, this.connType := clock, conn, connType;
      uiEventsToProcess, ioResults := [], [];
      ws, tcpSock, wsReadBuffer := false, false, [];
      tcpReadBuf := Tagged("\0\0\0\0\0\0\0\0", 0);
      isSendingBlinkCommand, timeSendBlinkCommand, blinkLatency := false, 0, 0;
      accepting, reading, gathered, readings := true, false, 0, 0;
      ended, sends, replies := false, [], [];
    }

    /** `std::chrono::steady_clock::now()` */
    method Now() returns (t: int)
      modifies this`readings
      ensures t == clock(old(readings)) && readings == old(readings) + 1
    {
      t := clock(readings);
      readings := readings + 1;
    }

    method HandleSendButtonClick()
      requires Connected(View())
      modifies this, conn
      ensures Both() == Click(clock, old(Both()))
    {
      hide Tagged;
      var reading := readings;
      isSendingBlinkCommand := true;
      timeSendBlinkCommand := Now();
      var cells := Tagged(CLICK, |sends|);
      match connType {
        case WebSocket => conn.wsDown := conn.wsDown + [Message(TEXT, cells)];
        case CustomTcp => conn.tcpDown := conn.tcpDown + cells;
      }
      sends := sends + [reading];
    }

    method ProcessUiEvents()
      requires uiEventsToProcess != [] ==> Connected(View())
      modifies this, conn
      ensures Both() == ClickSpec.ProcessUiEvents(clock, old(Both()))
    {
      ghost var events := uiEventsToProcess;
      var i := 0;
      while i < |uiEventsToProcess|
        invariant 0 <= i <= |uiEventsToProcess| && uiEventsToProcess == events
        invariant events != [] ==> Connected(View())
        invariant Clicks(clock, Both(), events[i..]) == Clicks(clock, old(Both()), events)
      {
        match uiEventsToProcess[i] {
          case SendButtonClick => HandleSendButtonClick();
        }
        assert events[i..][1..] == events[i + 1..];
        i := i + 1;
      }
      uiEventsToProcess := [];
    }

    method WsAsyncRead()
      requires ws && !reading
      modifies this`reading, this`gathered
      ensures View() == AsyncRead(old(View()))
    {
      reading, gathered := true, 0;
    }

    method TcpAsyncRead()
      requires tcpSock && !reading
      modifies this`reading, this`gathered
      ensures View() == AsyncRead(old(View()))
    {
      reading, gathered := true, 0;
    }

    /** The message in `cells` is the awaited reply. */
    method FinishSending(ghost cells: seq<Cell>)
      modifies this
      ensures View() == Replied(clock, old(View()), cells)
    {
      ghost var reading := readings;
      isSendingBlinkCommand := false;
      var now := Now();
      blinkLatency := now - timeSendBlinkCommand;
      replies := replies + [Reply(ClickOf(cells), reading, blinkLatency)];
    }

    method HandleResult(result: IOResult)
      requires result == Cancelled || CanRead(Received(clock, View(), result), result)
      modifies this
      ensures View() == Handle(clock, old(View()), result)
    {
      match result {
        case WsConnected =>
          ws := true;
          WsAsyncRead();
        case WsMsgReceived =>
          FinishSending(wsReadBuffer);
          wsReadBuffer := [];
          WsAsyncRead();
        case TcpConnected =>
          tcpSock := true;
          TcpAsyncRead();
        case TcpMessageReceived =>
          FinishSending(tcpReadBuf);
          TcpAsyncRead();
        case Cancelled =>
          ended := true;
      }
    }

    /** The loop appends nothing to the list it runs over: reads only start here, and complete later. */
    method ProcessIOResults()
      requires CanHandleAll(clock, View(), ioResults)
      modifies this
      ensures View() == ClickSpec.ProcessIOResults(clock, old(View()))
    {
      ghost var results := ioResults;
      var i := 0;
      while i < |ioResults|
        invariant 0 <= i <= |ioResults| && ioResults == results
        invariant CanHandleAll(clock, View(), results[i..])
        invariant HandleAll(clock, View(), results[i..]) == HandleAll(clock, old(View()), results)
      {
        assert results[i..][0] == ioResults[i] && results[i..][1..] == results[i + 1..];
        HandlerFrame(clock, View(), ioResults[i]);
        HandleResult(ioResults[i]);
        i := i + 1;
      }
      ioResults := [];
    }

    method Render(pressed: bool)
      modifies this`uiEventsToProcess
      ensures View() == ClickSpec.Render(old(View()), pressed)
    {
      if ws || tcpSock {
        var enabled := !isSendingBlinkCommand;
        if enabled && pressed {
          uiEventsToProcess := uiEventsToProcess + [SendButtonClick];
        }
      }
    }

    /** One round of the loop, which posts the next one unless the window or a signal says stop. */
    method RunAppLoop(stop: bool, pressed: bool) returns (posted: bool)
      requires Safe(clock, Both())
      modifies this, conn
      ensures posted == !stop
      ensures Both() == if stop then old(Both()) else Frame(clock, old(Both()), pressed)
    {
      if stop {
        return false;
      }
      ClicksFrame(clock, Both(), uiEventsToProcess);
      ProcessUiEvents();
      ProcessIOResults();
      Render(pressed);
      return true;
    }

    // ------------------------------------------------------------------------- completion handlers

    method OnAccept(outcome: Accepted)
      requires accepting
      modifies this
      ensures View() == Accept(old(View()), outcome)
    {
      accepting := false;
      match outcome {
        case Failed =>
          ended := true;
        case NotOpen =>
          ioResults := ioResults + [Cancelled];
        case Open =>
          ioResults := ioResults + [if connType == WebSocket then WsConnected else TcpConnected];
      }
    }

    method OnReadFailed()
      requires reading
      modifies this
      ensures View() == ReadFailed(old(View()))
    {
      reading := false;
      ended := true;
    }

    method OnWsRead()
      requires reading && conn.wsUp != []
      modifies this, conn
      ensures Both() == WsRead(old(Both()))
      ensures wsReadBuffer == old(wsReadBuffer + conn.wsUp[0].cells)
    {
      var cells := conn.wsUp[0].cells;
      conn.wsUp := conn.wsUp[1..];
      reading := false;
      wsReadBuffer := wsReadBuffer + cells;
      if |cells| == 0 {
        ended := true;
        return;
      }
      ioResults := ioResults + [WsMsgReceived];
    }

    /** One piece of the composed TCP read; the last one runs the handler. */
    method OnTcpReadSome(n: nat)
      requires reading && n <= |conn.tcpUp| && gathered + n <= |tcpReadBuf|
      modifies this, conn
      ensures Both() == TcpRead(old(Both()), n)
    {
      tcpReadBuf := tcpReadBuf[..gathered] + conn.tcpUp[..n] + tcpReadBuf[gathered + n..];
      conn.tcpUp := conn.tcpUp[n..];
      gathered := gathered + n;
      if gathered == |tcpReadBuf| {
        reading := false;
        ioResults := ioResults + [TcpMessageReceived];
      }
    }
  }
}
