/** What every handler of the click protocol keeps. */
module ClickInvariant {
  import opened ClickSpec

  /** Where the exchange for the click now underway stands; `Idle` when there is none. */
  datatype Stage = Idle | Down | Owed | Up | Queued

  function MsgReceived(connType: ConnectionType): IOResult {
    if connType == WebSocket then WsMsgReceived else TcpMessageReceived
  }

  function ConnectedResult(connType: ConnectionType): IOResult {
    if connType == WebSocket then WsConnected else TcpConnected
  }

  /** How many handlers are to come: at most one operation is outstanding or result waiting. */
  function Tokens(d: Desk): nat {
    (if d.accepting then 1 else 0) + (if d.reading then 1 else 0) + |d.ioResults| + (if d.ended then 1 else 0)
  }

  /** The single continuation, and what it says about the connection. */
  predicate OneContinuation(d: Desk) {
    && Tokens(d) == 1
    && (d.accepting ==> !Connected(d))
    && (d.reading ==> Connected(d))
    && (d.ioResults != [] ==>
          || (d.ioResults[0] == MsgReceived(d.connType) && Connected(d))
          || (d.ioResults[0] in {ConnectedResult(d.connType), Cancelled} && !Connected(d)))
  }

  /** The button's gate: at most one click waits, only while connected and with no reply outstanding. */
  predicate Gated(d: Desk) {
    && |d.uiEvents| <= 1
    && (d.uiEvents != [] ==> !d.isSending && Connected(d))
    && (d.isSending ==> Connected(d))
    && (if d.connType == WebSocket then !d.tcpSock else !d.ws)
  }

  /** Exactly the bytes of the click underway, or of its reply, are between the two ends. */
  predicate InStage(w: World, s: Stage) {
    var d, wire, click := w.link.desk, w.link.wire, |w.link.desk.log.replies|;
    var isWs := d.connType == WebSocket;
    && d.isSending == (s != Idle)
    && |d.log.sends| == click + (if s == Idle then 0 else 1)
    && wire.wsDown == (if s == Down && isWs then [Message(TEXT, Tagged(CLICK, click))] else [])
    && wire.tcpDown == (if s == Down && !isWs then Tagged(CLICK, click) else [])
    && w.owed == (if s == Owed then [click] else [])
    && wire.wsUp == (if s == Up && isWs then [Message(TEXT, Tagged(RECEIVED, click))] else [])
    && d.wsReadBuffer == (if s == Queued && isWs then Tagged(RECEIVED, click) else [])
    && (s == Queued <==> d.ioResults == [MsgReceived(d.connType)])
    && |d.tcpReadBuf| == |RECEIVED| && d.gathered <= |RECEIVED|
    && (if isWs || (s != Up && s != Queued) then d.gathered == 0 && wire.tcpUp == []
        else d.tcpReadBuf[..d.gathered] + wire.tcpUp == Tagged(RECEIVED, click))
    && (s == Up ==> d.gathered < |RECEIVED|)
    && (s == Queued && !isWs ==> d.gathered == |RECEIVED|)
  }

  /**
   Clicks and replies pair up in order: reply `i` answers click `i`, its latency is the time from that
   click to its processing, and no click is sent before the reply to the one before it.
   */
  ghost predicate Paired(clock: Clock, log: Log, timeSend: int, latency: int) {
    && |log.replies| <= |log.sends| <= |log.replies| + 1
    && (forall i | 0 <= i < |log.sends| :: log.sends[i] < log.readings)
    && (forall i {:trigger log.replies[i]} | 0 <= i < |log.replies| ::
          && log.replies[i].click == i
          && log.sends[i] < log.replies[i].reading < log.readings
          && log.replies[i].latency == clock(log.replies[i].reading) - clock(log.sends[i]))
    && (forall i {:trigger log.replies[i]} | 0 <= i < |log.sends| - 1 :: log.replies[i].reading < log.sends[i + 1])
    && (log.sends != [] ==> timeSend == clock(log.sends[|log.sends| - 1]))
    && latency == (if log.replies == [] then 0 else log.replies[|log.replies| - 1].latency)
  }

  ghost predicate DeskInv(clock: Clock, d: Desk) {
    OneContinuation(d) && Gated(d) && Paired(clock, d.log, d.timeSend, d.latency)
  }

  ghost predicate Inv(clock: Clock, w: World) {
    DeskInv(clock, w.link.desk) && exists s :: InStage(w, s)
  }

  lemma InitKeeps(clock: Clock, connType: ConnectionType)
    ensures Inv(clock, Init(connType))
  {
    assert InStage(Init(connType), Idle);
  }

  // ------------------------------------------------------------------------------ the desktop's frame

  lemma ReplyKeepsPairing(clock: Clock, log: Log, timeSend: int, latency: int)
    requires Paired(clock, log, timeSend, latency) && |log.sends| == |log.replies| + 1
    ensures
      var now := clock(log.readings) - timeSend;
      var reply := Reply(|log.replies|, log.readings, now);
      Paired(clock, Log(log.readings + 1, log.sends, log.replies + [reply]), timeSend, now)
  {
  }

  lemma ClickKeeps(clock: Clock, w: World)
    requires DeskInv(clock, w.link.desk) && InStage(w, Idle) && Connected(w.link.desk) && w.link.desk.uiEvents == []
    ensures DeskInv(clock, Click(clock, w.link).desk) && InStage(w.(link := Click(clock, w.link)), Down)
  {
  }

  lemma EventTaken(clock: Clock, w: World, taken: World)
    requires Inv(clock, w) && w.link.desk.uiEvents != []
    requires taken == w.(link := w.link.(desk := w.link.desk.(uiEvents := [])))
    ensures w.link.desk.uiEvents == [SendButtonClick]
    ensures DeskInv(clock, taken.link.desk) && InStage(taken, Idle) && Connected(taken.link.desk)
  {
    hide Paired;
    var s :| InStage(w, s);
    assert s == Idle;
    var events := w.link.desk.uiEvents;
    assert events[0] == SendButtonClick && events == [events[0]];
  }

  lemma OneClick(clock: Clock, k: Link)
    requires k.desk.uiEvents == [SendButtonClick]
    ensures ProcessUiEvents(clock, k) == Click(clock, k.(desk := k.desk.(uiEvents := [])))
  {
    assert k.desk.uiEvents[1..] == [] && Clicks(clock, Click(clock, k), []) == Click(clock, k);
  }

  /** A waiting click starts an exchange. */
  lemma UiKeeps(clock: Clock, w: World)
    requires Inv(clock, w)
    ensures Inv(clock, w.(link := ProcessUiEvents(clock, w.link)))
  {
    var k := w.link;
    if k.desk.uiEvents == [] {
      assert ProcessUiEvents(clock, k) == k;
    } else {
      hide DeskInv, InStage, Click, ProcessUiEvents, Connected;
      var taken := w.(link := k.(desk := k.desk.(uiEvents := [])));
      EventTaken(clock, w, taken);
      ClickKeeps(clock, taken);
      OneClick(clock, k);
    }
  }

  lemma ConnectedKeeps(clock: Clock, w: World, result: IOResult, next: World)
    requires Inv(clock, w) && w.link.desk.ioResults == [result] && result != MsgReceived(w.link.desk.connType)
    requires next == w.(link := w.link.(desk := Handle(clock, w.link.desk, result).(ioResults := [])))
    ensures result == Cancelled || CanRead(Received(clock, w.link.desk, result), result)
    ensures Inv(clock, next)
  {
    hide Paired;
    var s :| InStage(w, s);
    assert s == Idle;
    assert InStage(next, Idle);
  }

  lemma MessageKeeps(clock: Clock, w: World, result: IOResult, next: World)
    requires Inv(clock, w) && w.link.desk.ioResults == [result] && result == MsgReceived(w.link.desk.connType)
    requires next == w.(link := w.link.(desk := Handle(clock, w.link.desk, result).(ioResults := [])))
    ensures CanRead(Received(clock, w.link.desk, result), result)
    ensures Inv(clock, next) && InStage(next, Idle)
    ensures next.link.desk.reading && next.link.desk.log.sends == w.link.desk.log.sends
  {
    hide Paired;
    var d := w.link.desk;
    var s :| InStage(w, s);
    assert s == Queued && |d.log.sends| == |d.log.replies| + 1;
    ReplyKeepsPairing(clock, d.log, d.timeSend, d.latency);
    ReplyWaits(w);
    assert InStage(next, Idle);
  }

  /** A queued reply lies whole in the read buffer. */
  lemma ReplyWaits(w: World)
    requires InStage(w, Queued)
    ensures
      var d := w.link.desk;
      var cells := if d.connType == WebSocket then d.wsReadBuffer else d.tcpReadBuf;
      && cells == Tagged(RECEIVED, |d.log.replies|)
      && ClickOf(cells) == |d.log.replies|
      && w.link.wire.tcpUp == []
  {
  }

  /** A reply ends the exchange, and the next read starts; a result never starts a second one. */
  lemma IoKeeps(clock: Clock, w: World)
    requires Inv(clock, w)
    ensures CanHandleAll(clock, w.link.desk, w.link.desk.ioResults)
    ensures
      var next := w.(link := w.link.(desk := ProcessIOResults(clock, w.link.desk)));
      && Inv(clock, next)
      && (w.link.desk.ioResults == [MsgReceived(w.link.desk.connType)] ==>
            && InStage(next, Idle)
            && next.link.desk.reading && next.link.desk.log.sends == w.link.desk.log.sends)
  {
    hide InStage, Paired, Handle, Received;
    var d := w.link.desk;
    if d.ioResults == [] {
      assert ProcessIOResults(clock, d) == d;
    } else {
      var result := d.ioResults[0];
      assert d.ioResults == [result] && d.ioResults[1..] == [];
      var next := w.(link := w.link.(desk := Handle(clock, d, result).(ioResults := [])));
      if result == MsgReceived(d.connType) {
        MessageKeeps(clock, w, result, next);
      } else {
        ConnectedKeeps(clock, w, result, next);
      }
      assert HandleAll(clock, Handle(clock, d, result), []) == Handle(clock, d, result);
      assert ProcessIOResults(clock, d) == next.link.desk;
    }
  }

  lemma RenderKeeps(clock: Clock, w: World, pressed: bool)
    requires Inv(clock, w) && w.link.desk.uiEvents == []
    ensures Inv(clock, w.(link := w.link.(desk := Render(w.link.desk, pressed))))
  {
    hide Paired;
    var s :| InStage(w, s);
    assert InStage(w.(link := w.link.(desk := Render(w.link.desk, pressed))), s);
  }

  /** Handling clicks touches neither the desktop's operations and results nor the replies. */
  lemma {:induction false} ClicksFrame(clock: Clock, k: Link, events: seq<UIEvent>)
    ensures
      var d, next := k.desk, Clicks(clock, k, events).desk;
      && next.connType == d.connType && next.ioResults == d.ioResults && next.log.replies == d.log.replies
      && next.accepting == d.accepting && next.reading == d.reading && next.ended == d.ended
    decreases |events|
  {
    hide Tagged;
    if events != [] {
      ClicksFrame(clock, Click(clock, k), events[1..]);
    }
  }

  lemma HandlerFrame(clock: Clock, d: Desk, result: IOResult)
    ensures
      var next := Handle(clock, d, result);
      next.uiEvents == d.uiEvents && next.ioResults == d.ioResults && next.connType == d.connType
  {
    hide ClickOf;
    match result
    case WsConnected =>
    case WsMsgReceived =>
    case TcpConnected =>
    case TcpMessageReceived =>
    case Cancelled =>
  }

  /** Processing results adds no events, which come from rendering only. */
  lemma {:induction false} HandlersFrame(clock: Clock, d: Desk, results: seq<IOResult>)
    ensures var next := HandleAll(clock, d, results); next.uiEvents == d.uiEvents && next.connType == d.connType
    decreases |results|
  {
    hide Handle;
    if results != [] {
      HandlerFrame(clock, d, results[0]);
      HandlersFrame(clock, Handle(clock, d, results[0]), results[1..]);
    }
  }

  lemma FrameKeeps(clock: Clock, w: World, pressed: bool)
    requires Inv(clock, w)
    ensures Inv(clock, w.(link := Frame(clock, w.link, pressed)))
  {
    UiKeeps(clock, w);
    var sent := w.(link := ProcessUiEvents(clock, w.link));
    assert sent.link.desk.uiEvents == [];
    hide Inv, ProcessUiEvents, Render, HandleAll;
    IoKeeps(clock, sent);
    HandlersFrame(clock, sent.link.desk, sent.link.desk.ioResults);
    RenderKeeps(clock, sent.(link := sent.link.(desk := ProcessIOResults(clock, sent.link.desk))), pressed);
  }

  // ------------------------------------------------------------------------------- the other handlers

  lemma QuietStepKeeps(clock: Clock, w: World, e: Event)
    requires Inv(clock, w) && Enabled(w, e) && (e.DoAccept? || e.DoReadFailed?)
    ensures Inv(clock, Step(clock, w, e))
  {
    hide Paired;
    var s :| InStage(w, s);
    var next := Step(clock, w, e);
    assert |w.link.desk.ioResults| == 0 && s != Queued;
    assert next.link.desk.ioResults != [] ==> next.link.desk.ioResults[0] != MsgReceived(w.link.desk.connType);
    assert InStage(next, s);
  }

  lemma WsReadKeeps(clock: Clock, w: World)
    requires Inv(clock, w) && Enabled(w, DoWsRead)
    ensures Inv(clock, Step(clock, w, DoWsRead)) && InStage(Step(clock, w, DoWsRead), Queued)
  {
    hide Paired;
    var next := Step(clock, w, DoWsRead);
    assert InStage(w, Up);
    assert w.link.desk.ioResults == [] && next.link.desk.ioResults == [WsMsgReceived];
    assert InStage(next, Queued);
  }

  lemma TcpReadKeeps(clock: Clock, w: World, n: nat)
    requires Inv(clock, w) && Enabled(w, DoTcpRead(n))
    ensures Inv(clock, Step(clock, w, DoTcpRead(n)))
    ensures InStage(Step(clock, w, DoTcpRead(n)), if w.link.desk.gathered + n == |RECEIVED| then Queued else Up)
  {
    hide Paired;
    var d, wire := w.link.desk, w.link.wire;
    var got := d.gathered + n;
    var next := Step(clock, w, DoTcpRead(n));
    assert InStage(w, Up);
    assert next.link.desk.tcpReadBuf[..got] == d.tcpReadBuf[..d.gathered] + wire.tcpUp[..n];
    assert next.link.desk.tcpReadBuf[..got] + next.link.wire.tcpUp == d.tcpReadBuf[..d.gathered] + wire.tcpUp;
    assert d.ioResults == [] && (got == |RECEIVED| ==> next.link.desk.ioResults == [TcpMessageReceived]);
    assert InStage(next, if got == |RECEIVED| then Queued else Up);
  }

  lemma DeviceKeeps(clock: Clock, w: World, e: Event)
    requires Inv(clock, w) && Enabled(w, e) && Whole(e)
    requires e.DoDeviceWs? || e.DoDeviceTcp? || e.DoDeviceReply?
    ensures Inv(clock, Step(clock, w, e)) && InStage(Step(clock, w, e), if e.DoDeviceReply? then Up else Owed)
  {
    hide Paired;
    var s :| InStage(w, s);
    assert InStage(Step(clock, w, e), if e.DoDeviceReply? then Up else Owed);
  }

  /** Every step of a run keeps the invariant, as long as the device receives whole clicks. */
  lemma StepKeeps(clock: Clock, w: World, e: Event)
    requires Inv(clock, w) && Enabled(w, e) && Whole(e)
    ensures Inv(clock, Step(clock, w, e))
  {
    match e
    case DoFrame(pressed) => FrameKeeps(clock, w, pressed);
    case DoAccept(_) => QuietStepKeeps(clock, w, e);
    case DoReadFailed => QuietStepKeeps(clock, w, e);
    case DoWsRead => WsReadKeeps(clock, w);
    case DoTcpRead(n) => TcpReadKeeps(clock, w, n);
    case _ => DeviceKeeps(clock, w, e);
  }
}
