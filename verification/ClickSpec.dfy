/**
 The click and reply protocol between the desktop application and the ESP32, as functions on values: the
 desktop's state, the two directions of the connection, and the device. One function for each handler.
 */
module ClickSpec {

  // ------------------------------------------------------------------------------------ what is sent

  /** What a click sends: the buffer of a string literal includes its terminating zero. */
  const CLICK: string := "button clicked\n\0"

  /** The device's reply, and what the desktop's TCP read buffer is sized for. */
  const RECEIVED: string := "received"

  const TEXT: nat := 0x1
  const BINARY: nat := 0x2
  const CLOSE: nat := 0x8

  /** A byte on its way. The proofs trace it by the number of the click it belongs to. */
  datatype Cell = Cell(ch: char, click: nat)

  datatype Message = Message(opcode: nat, cells: seq<Cell>)

  /** The characters themselves. */
  function Text(cells: seq<Cell>): (text: string)
    ensures |text| == |cells|
  {
    seq(|cells|, i requires 0 <= i < |cells| => cells[i].ch)
  }

  function Tagged(text: string, click: nat): (cells: seq<Cell>)
    ensures |cells| == |text|
    ensures Text(cells) == text
  {
    seq(|text|, i requires 0 <= i < |text| => Cell(text[i], click))
  }

  /** The click that the first byte belongs to. */
  function ClickOf(cells: seq<Cell>): nat {
    if cells == [] then 0 else cells[0].click
  }

  /** Messages of the WebSocket and bytes of the TCP stream, down to the device and up to the desktop. */
  datatype Wire = Wire(wsDown: seq<Message>, wsUp: seq<Message>, tcpDown: seq<Cell>, tcpUp: seq<Cell>)

  // ------------------------------------------------------------------------------------- the desktop

  datatype ConnectionType = WebSocket | CustomTcp

  datatype UIEvent = SendButtonClick

  datatype IOResult = WsConnected | WsMsgReceived | TcpConnected | TcpMessageReceived | Cancelled

  /** The number of the click whose reply was processed, the clock reading taken then, and the latency. */
  datatype Reply = Reply(click: nat, reading: nat, latency: int)

  /** History: how often the clock was read, at which reading each click was sent, the replies processed. */
  datatype Log = Log(readings: nat, sends: seq<nat>, replies: seq<Reply>)

  /**
   `AppState`. The operations outstanding in its `io_context` are `accepting` and `reading`, the latter
   with the number of bytes a TCP read has gathered; `ended` records that the chain of handlers ended.
   */
  datatype Desk = Desk(
    connType: ConnectionType,
    accepting: bool,
    reading: bool,
    gathered: nat,
    uiEvents: seq<UIEvent>,
    ioResults: seq<IOResult>,
    ws: bool,
    tcpSock: bool,
    wsReadBuffer: seq<Cell>,
    tcpReadBuf: seq<Cell>,
    isSending: bool,
    timeSend: int,
    latency: int,
    ended: bool,
    log: Log)

  /** The desktop with its end of the connection. */
  datatype Link = Link(desk: Desk, wire: Wire)

  /** `steady_clock`: the time at each reading. */
  type Clock = nat -> int

  ghost predicate Monotone(clock: Clock) {
    forall i, j | i <= j :: clock(i) <= clock(j)
  }

  function InitDesk(connType: ConnectionType): Desk {
    Desk(connType, true, false, 0, [], [], false, false, [], Tagged("\0\0\0\0\0\0\0\0", 0),
         false, 0, 0, false, Log(0, [], []))
  }

  const QUIET: Wire := Wire([], [], [], [])

  /** The socket that `connType` selects has been set. */
  predicate Connected(d: Desk) {
    match d.connType
    case WebSocket => d.ws
    case CustomTcp => d.tcpSock
  }

  /** `handleSendButtonClick` */
  function Click(clock: Clock, k: Link): Link {
    var d := k.desk;
    var log := d.log;
    var cells := Tagged(CLICK, |log.sends|);
    Link(
      d.(isSending := true, timeSend := clock(log.readings),
         log := Log(log.readings + 1, log.sends + [log.readings], log.replies)),
      match d.connType
      case WebSocket => k.wire.(wsDown := k.wire.wsDown + [Message(TEXT, cells)])
      case CustomTcp => k.wire.(tcpDown := k.wire.tcpDown + cells))
  }

  function Clicks(clock: Clock, k: Link, events: seq<UIEvent>): Link
    decreases |events|
  {
    if events == [] then k else Clicks(clock, Click(clock, k), events[1..])
  }

  /** `processUiEvents` */
  function ProcessUiEvents(clock: Clock, k: Link): Link {
    var done := Clicks(clock, k, k.desk.uiEvents);
    done.(desk := done.desk.(uiEvents := []))
  }

  /** The read after `result` may start: its socket is set, and no other read is pending. */
  predicate CanRead(d: Desk, result: IOResult) {
    !d.reading && (if result == WsConnected || result == WsMsgReceived then d.ws else d.tcpSock)
  }

  /** `wsAsyncRead` and `tcpAsyncRead` */
  function AsyncRead(d: Desk): Desk {
    d.(reading := true, gathered := 0)
  }

  /** A reply is taken from `cells`. */
  function Replied(clock: Clock, d: Desk, cells: seq<Cell>): Desk {
    var log := d.log;
    var latency := clock(log.readings) - d.timeSend;
    d.(isSending := false, latency := latency,
       log := Log(log.readings + 1, log.sends, log.replies + [Reply(ClickOf(cells), log.readings, latency)]))
  }

  /** The body of the loop of `processIOResults`, up to the read it starts. */
  function Received(clock: Clock, d: Desk, result: IOResult): Desk {
    match result
    case WsConnected => d.(ws := true)
    case WsMsgReceived => Replied(clock, d, d.wsReadBuffer).(wsReadBuffer := [])
    case TcpConnected => d.(tcpSock := true)
    case TcpMessageReceived => Replied(clock, d, d.tcpReadBuf)
    case Cancelled => d.(ended := true)
  }

  function Handle(clock: Clock, d: Desk, result: IOResult): Desk {
    var next := Received(clock, d, result);
    if result == Cancelled then next else AsyncRead(next)
  }

  function HandleAll(clock: Clock, d: Desk, results: seq<IOResult>): Desk
    decreases |results|
  {
    if results == [] then d else HandleAll(clock, Handle(clock, d, results[0]), results[1..])
  }

  /** No result starts a read without a socket, or while another read is pending. */
  predicate CanHandleAll(clock: Clock, d: Desk, results: seq<IOResult>)
    decreases |results|
  {
    results == [] ||
    (&& (results[0] == Cancelled || CanRead(Received(clock, d, results[0]), results[0]))
     && CanHandleAll(clock, Handle(clock, d, results[0]), results[1..]))
  }

  /** `processIOResults` */
  function ProcessIOResults(clock: Clock, d: Desk): Desk {
    HandleAll(clock, d, d.ioResults).(ioResults := [])
  }

  /** `render`: a disabled button reports no click. */
  function Render(d: Desk, pressed: bool): Desk {
    if (d.ws || d.tcpSock) && !d.isSending && pressed then
      d.(uiEvents := d.uiEvents + [SendButtonClick])
    else
      d
  }

  /** One round of `runAppLoop`. */
  function Frame(clock: Clock, k: Link, pressed: bool): Link {
    var sent := ProcessUiEvents(clock, k);
    sent.(desk := Render(ProcessIOResults(clock, sent.desk), pressed))
  }

  // ------------------------------------------------------------- completions of the desktop's operations

  datatype Accepted = Failed | NotOpen | Open

  /** The accept handlers. */
  function Accept(d: Desk, outcome: Accepted): Desk {
    var idle := d.(accepting := false);
    match outcome
    case Failed => idle.(ended := true)
    case NotOpen => idle.(ioResults := d.ioResults + [Cancelled])
    case Open =>
      idle.(ioResults := d.ioResults + [if d.connType == WebSocket then WsConnected else TcpConnected])
  }

  /** A read that fails, or finds the connection closed. */
  function ReadFailed(d: Desk): Desk {
    d.(reading := false, ended := true)
  }

  /** The WebSocket read has got the next message. */
  function WsRead(k: Link): Link
    requires k.wire.wsUp != []
  {
    var cells := k.wire.wsUp[0].cells;
    var d := k.desk.(reading := false, wsReadBuffer := k.desk.wsReadBuffer + cells);
    Link(
      if cells == [] then d.(ended := true) else d.(ioResults := d.ioResults + [WsMsgReceived]),
      k.wire.(wsUp := k.wire.wsUp[1..]))
  }

  /** The TCP read gathers `n` bytes more, and completes once its buffer is full. */
  function TcpRead(k: Link, n: nat): Link
    requires n <= |k.wire.tcpUp| && k.desk.gathered + n <= |k.desk.tcpReadBuf|
  {
    var d := k.desk;
    var got := d.gathered + n;
    var filled :=
      d.(gathered := got, tcpReadBuf := d.tcpReadBuf[..d.gathered] + k.wire.tcpUp[..n] + d.tcpReadBuf[got..]);
    Link(
      if got < |d.tcpReadBuf| then filled
      else filled.(reading := false, ioResults := d.ioResults + [TcpMessageReceived]),
      k.wire.(tcpUp := k.wire.tcpUp[n..]))
  }

  // -------------------------------------------------------------------------------------- the device

  /** `websocketEventHandler` answers everything but binary data and close messages of two bytes. */
  predicate Answers(m: Message) {
    m.opcode != BINARY && !(m.opcode == CLOSE && |m.cells| == 2)
  }

  /** The two ends and the connection between them. The device owes a reply to each click in `owed`. */
  datatype World = World(link: Link, owed: seq<nat>)

  function Init(connType: ConnectionType): World {
    World(Link(InitDesk(connType), QUIET), [])
  }

  /** The device receives the next WebSocket message. */
  function DeviceWs(w: World): World
    requires w.link.wire.wsDown != []
  {
    var m := w.link.wire.wsDown[0];
    World(
      w.link.(wire := w.link.wire.(wsDown := w.link.wire.wsDown[1..])),
      if Answers(m) then w.owed + [ClickOf(m.cells)] else w.owed)
  }

  /** One `recv` of the device returns `n` bytes; whatever they are, a reply follows. */
  function DeviceTcp(w: World, n: nat): World
    requires n <= |w.link.wire.tcpDown|
  {
    World(
      w.link.(wire := w.link.wire.(tcpDown := w.link.wire.tcpDown[n..])),
      w.owed + [ClickOf(w.link.wire.tcpDown[..n])])
  }

  /** The device sends the reply it owes. */
  function DeviceReply(w: World): World
    requires w.owed != []
  {
    var cells := Tagged(RECEIVED, w.owed[0]);
    var wire := w.link.wire;
    World(
      w.link.(wire :=
                if w.link.desk.connType == WebSocket then wire.(wsUp := wire.wsUp + [Message(TEXT, cells)])
                else wire.(tcpUp := wire.tcpUp + cells)),
      w.owed[1..])
  }

  // ---------------------------------------------------------------------------------------- the runs

  datatype Event =
    | DoFrame(pressed: bool)
    | DoAccept(outcome: Accepted)
    | DoWsRead
    | DoTcpRead(n: nat)
    | DoReadFailed
    | DoDeviceWs
    | DoDeviceTcp(n: nat)
    | DoDeviceReply

  /** When the runtime can run a handler, or the device take a step. */
  predicate Enabled(w: World, e: Event) {
    var d, wire := w.link.desk, w.link.wire;
    match e
    case DoFrame(_) => true
    case DoAccept(_) => d.accepting
    case DoWsRead => d.connType == WebSocket && d.reading && wire.wsUp != []
    case DoTcpRead(n) =>
      d.connType == CustomTcp && d.reading && 0 < n <= |wire.tcpUp| && d.gathered + n <= |d.tcpReadBuf|
    case DoReadFailed => d.reading
    case DoDeviceWs => w.owed == [] && wire.wsDown != []
    case DoDeviceTcp(n) => w.owed == [] && 0 < n <= |wire.tcpDown| && n <= |CLICK|
    case DoDeviceReply => w.owed != []
  }

  function Step(clock: Clock, w: World, e: Event): World
    requires Enabled(w, e)
  {
    match e
    case DoFrame(pressed) => w.(link := Frame(clock, w.link, pressed))
    case DoAccept(outcome) => w.(link := w.link.(desk := Accept(w.link.desk, outcome)))
    case DoWsRead => w.(link := WsRead(w.link))
    case DoTcpRead(n) => w.(link := TcpRead(w.link, n))
    case DoReadFailed => w.(link := w.link.(desk := ReadFailed(w.link.desk)))
    case DoDeviceWs => DeviceWs(w)
    case DoDeviceTcp(n) => DeviceTcp(w, n)
    case DoDeviceReply => DeviceReply(w)
  }

  /** The delivery assumption of the device's TCP loop: a `recv` returns a whole click. */
  predicate Whole(e: Event) {
    e.DoDeviceTcp? ==> e.n == |CLICK|
  }

  ghost predicate Possible(clock: Clock, w: World, run: seq<Event>)
    decreases |run|
  {
    run == [] || (Enabled(w, run[0]) && Possible(clock, Step(clock, w, run[0]), run[1..]))
  }

  ghost function After(clock: Clock, w: World, run: seq<Event>): World
    requires Possible(clock, w, run)
    decreases |run|
  {
    if run == [] then w else After(clock, Step(clock, w, run[0]), run[1..])
  }
}
