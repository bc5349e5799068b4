/** That clicks get through: the button works, any number of clicks can be answered, and exactly what ends that. */
module ClickLive {
  import opened ClickSpec
  import opened ClickInvariant
  import opened ClickRuns
  import opened ClickDelivery

  // -------------------------------------------------------------------------------------- the button

  /** In any state of a run, after a frame a click waits exactly if the button was pressed, live and enabled. */
  lemma PressIsQueued(clock: Clock, w: World, pressed: bool)
    requires Inv(clock, w)
    ensures
      var d := Frame(clock, w.link, pressed).desk;
      d.uiEvents == if pressed && Connected(d) && !d.isSending then [SendButtonClick] else []
  {
    UiKeeps(clock, w);
    var sent := w.(link := ProcessUiEvents(clock, w.link));
    assert sent.link.desk.uiEvents == [];
    hide ProcessUiEvents, InStage, OneContinuation, Paired, HandleAll;
    IoKeeps(clock, sent);
    HandlersFrame(clock, sent.link.desk, sent.link.desk.ioResults);
    assert [] + [SendButtonClick] == [SendButtonClick];
  }

  /** Whatever the connection type, a press is queued exactly when a socket is then set and no reply outstanding. */
  lemma ButtonWorks(clock: Clock, connType: ConnectionType, run: seq<Event>, pressed: bool)
    requires Run(clock, Init(connType), run)
    ensures
      var d := Step(clock, Reached(clock, connType, run), DoFrame(pressed)).link.desk;
      d.uiEvents == if pressed && (d.ws || d.tcpSock) && !d.isSending then [SendButtonClick] else []
  {
    ReachedInv(clock, connType, run);
    PressIsQueued(clock, Reached(clock, connType, run), pressed);
    FrameKeeps(clock, Reached(clock, connType, run), pressed);
    hide Frame, InStage, Paired, OneContinuation;
  }

  // ----------------------------------------------------------------------------------- clicks go on

  /** Connected and waiting for a press, after `n` clicks and their replies. */
  ghost predicate Ready(clock: Clock, w: World, n: nat) {
    && Inv(clock, w) && InStage(w, Idle) && |w.link.desk.log.sends| == n
    && w.link.desk.reading && w.link.desk.uiEvents == []
  }

  /** A click that waits is sent. */
  lemma WaitingIsSent(clock: Clock, w: World)
    requires Inv(clock, w) && w.link.desk.uiEvents != [] && w.link.desk.ioResults == []
    ensures
      var next := Step(clock, w, DoFrame(false));
      && Inv(clock, next) && InStage(next, Down) && next.link.desk.ended == w.link.desk.ended
      && |next.link.desk.log.sends| == |w.link.desk.log.sends| + 1
  {
    FrameKeeps(clock, w, false);
    hide Inv, DeskInv, InStage, Frame, Tagged;
    var taken := w.(link := w.link.(desk := w.link.desk.(uiEvents := [])));
    EventTaken(clock, w, taken);
    ClickFrame(clock, w.link);
    ClickKeeps(clock, taken);
    assert Step(clock, w, DoFrame(false)).link == Click(clock, taken.link);
  }

  /** The button is pressed: the click waits. */
  lemma ReadyIsPressed(clock: Clock, w: World, n: nat)
    requires Ready(clock, w, n)
    ensures
      var next := Step(clock, w, DoFrame(true));
      && Inv(clock, next) && next.link.desk.uiEvents == [SendButtonClick] && next.link.desk.ioResults == []
      && !next.link.desk.ended && |next.link.desk.log.sends| == n
  {
    FrameKeeps(clock, w, true);
    hide Paired;
    assert [] + [SendButtonClick] == [SendButtonClick];
    assert w.link.desk.ioResults == [] && ProcessUiEvents(clock, w.link) == w.link;
    assert ProcessIOResults(clock, w.link.desk) == w.link.desk;
  }

  /** An exchange underway, or a click that waits, comes to its end. */
  lemma FinishExchange(clock: Clock, w: World, s: Stage) returns (more: seq<Event>)
    requires Inv(clock, w) && InStage(w, s) && !w.link.desk.ended && s != Idle
    ensures Run(clock, w, more) && Ready(clock, After(clock, w, more), |w.link.desk.log.sends|)
  {
    more := ExchangeEnds(clock, w, s);
  }

  lemma FinishWaiting(clock: Clock, w: World) returns (more: seq<Event>)
    requires Inv(clock, w) && w.link.desk.uiEvents != [] && w.link.desk.ioResults == [] && !w.link.desk.ended
    ensures Run(clock, w, more) && Ready(clock, After(clock, w, more), |w.link.desk.log.sends| + 1)
  {
    WaitingIsSent(clock, w);
    assert Run(clock, w, []) && After(clock, w, []) == w;
    hide Inv, InStage, Possible, After, Step, Ready;
    var first := OneStep(clock, w, [], DoFrame(false));
    var rest := FinishExchange(clock, Step(clock, w, DoFrame(false)), Down);
    RunThenRun(clock, w, first, rest);
    more := first + rest;
  }

  /** The button is pressed, and the click sent and answered. */
  lemma OneMoreClick(clock: Clock, w: World, n: nat) returns (more: seq<Event>)
    requires Ready(clock, w, n)
    ensures Run(clock, w, more) && Ready(clock, After(clock, w, more), n + 1)
  {
    ReadyIsPressed(clock, w, n);
    assert Run(clock, w, []) && After(clock, w, []) == w;
    hide Inv, InStage, Possible, After, Step, Ready;
    var first := OneStep(clock, w, [], DoFrame(true));
    var rest := FinishWaiting(clock, Step(clock, w, DoFrame(true)));
    RunThenRun(clock, w, first, rest);
    more := first + rest;
  }

  lemma {:induction false} MoreClicks(clock: Clock, w: World, n: nat, k: nat) returns (more: seq<Event>)
    requires Ready(clock, w, n)
    ensures Run(clock, w, more) && Ready(clock, After(clock, w, more), n + k)
  {
    assert Run(clock, w, []) && After(clock, w, []) == w;
    hide Possible, After, Ready;
    more := [];
    if k > 0 {
      more := MoreClicks(clock, w, n, k - 1);
      var last := OneMoreClick(clock, After(clock, w, more), n + k - 1);
      RunThenRun(clock, w, more, last);
      more := more + last;
    }
  }

  function Sum(pieces: seq<nat>): nat {
    if pieces == [] then 0 else pieces[0] + Sum(pieces[1..])
  }

  /** The reads that gather these numbers of bytes. */
  function Reads(pieces: seq<nat>): (run: seq<Event>)
    ensures |run| == |pieces|
  {
    if pieces == [] then [] else [DoTcpRead(pieces[0])] + Reads(pieces[1..])
  }

  /** TCP may deliver what is missing of a reply in any pieces: they can all be read, and complete it. */
  lemma {:induction false} AnyPieces(clock: Clock, w: World, pieces: seq<nat>)
    requires Inv(clock, w) && InStage(w, Up) && w.link.desk.connType == CustomTcp && !w.link.desk.ended
    requires 0 !in pieces && Sum(pieces) == 8 - w.link.desk.gathered
    ensures Run(clock, w, Reads(pieces))
    ensures Inv(clock, After(clock, w, Reads(pieces))) && InStage(After(clock, w, Reads(pieces)), Queued)
    decreases |pieces|
  {
    hide Inv, InStage, Step, Enabled;
    UpIsIncomplete(w);
    var n := pieces[0];
    PieceRead(clock, w, n);
    var next := Step(clock, w, DoTcpRead(n));
    assert Reads(pieces)[1..] == Reads(pieces[1..]);
    if n < 8 - w.link.desk.gathered {
      AnyPieces(clock, next, pieces[1..]);
    } else {
      NoPiecesLeft(pieces[1..]);
      assert Reads(pieces[1..]) == [] && After(clock, next, []) == next;
    }
  }

  lemma UpIsIncomplete(w: World)
    requires InStage(w, Up)
    ensures w.link.desk.gathered < 8
  {
  }

  lemma PieceRead(clock: Clock, w: World, n: nat)
    requires Inv(clock, w) && InStage(w, Up) && w.link.desk.connType == CustomTcp && !w.link.desk.ended
    requires 0 < n <= 8 - w.link.desk.gathered
    ensures w.link.desk.gathered < 8 && Enabled(w, DoTcpRead(n))
    ensures
      var d, next := w.link.desk, Step(clock, w, DoTcpRead(n));
      && next.link.desk.gathered == d.gathered + n
      && next.link.desk.ended == d.ended && next.link.desk.connType == d.connType
      && Inv(clock, next) && InStage(next, if d.gathered + n == 8 then Queued else Up)
  {
    UpIsRead(clock, w);
    TcpReadKeeps(clock, w, n);
    hide Inv, Paired;
  }

  lemma NoPiecesLeft(pieces: seq<nat>)
    requires 0 !in pieces && Sum(pieces) == 0
    ensures pieces == []
  {
  }

  // ----------------------------------------------------------------------------------------- failures

  /** The handlers have ended, or will with the result that waits. */
  predicate Failing(d: Desk) {
    d.ended || Cancelled in d.ioResults
  }

  /** A read fails, or an accept gives no open connection. */
  predicate IsFailure(e: Event) {
    e.DoReadFailed? || (e.DoAccept? && e.outcome != Open)
  }

  predicate HasFailed(run: seq<Event>) {
    exists e | e in run :: IsFailure(e)
  }

  /** The failure ends the handlers at once, without waiting for a frame. */
  predicate EndsAtOnce(e: Event) {
    e.DoReadFailed? || e == DoAccept(Failed)
  }

  predicate HasFrame(run: seq<Event>) {
    exists e | e in run :: e.DoFrame?
  }

  /** A read or an accept fails, or an accept gives a connection that is not open, and a frame follows. */
  predicate Ends(run: seq<Event>) {
    run != [] && (EndsAtOnce(run[0]) || (run[0] == DoAccept(NotOpen) && HasFrame(run[1..])) || Ends(run[1..]))
  }

  /** With one handler to come, only a failure makes the desktop fail, and nothing makes it recover. */
  lemma FailingStep(clock: Clock, w: World, e: Event)
    requires Inv(clock, w) && Enabled(w, e) && Whole(e)
    ensures
      var d, next := w.link.desk, Step(clock, w, e).link.desk;
      && (next.ended <==> d.ended || EndsAtOnce(e) || (Cancelled in d.ioResults && e.DoFrame?))
      && (Cancelled in next.ioResults <==> (Cancelled in d.ioResults && !e.DoFrame?) || e == DoAccept(NotOpen))
      && (Failing(d) ==> next.log.replies == d.log.replies)
  {
    if e.DoFrame? {
      FailingFrame(clock, w, e.pressed);
    } else {
      hide Paired, Frame;
      var s :| InStage(w, s);
    }
  }

  lemma FailingFrame(clock: Clock, w: World, pressed: bool)
    requires Inv(clock, w)
    ensures
      var d, next := w.link.desk, Frame(clock, w.link, pressed).desk;
      && (next.ended <==> Failing(d)) && Cancelled !in next.ioResults
      && (Failing(d) ==> next.log.replies == d.log.replies)
  {
    hide Paired, InStage, Clicks;
    ClicksFrame(clock, w.link, w.link.desk.uiEvents);
    var d := ProcessUiEvents(clock, w.link).desk;
    if d.ioResults != [] {
      var result := d.ioResults[0];
      assert d.ioResults == [result] && d.ioResults[1..] == [];
      assert HandleAll(clock, Handle(clock, d, result), []) == Handle(clock, d, result);
    }
  }

  lemma {:induction false} FailingRun(clock: Clock, w: World, run: seq<Event>)
    requires Inv(clock, w) && Run(clock, w, run)
    ensures
      var d, next := w.link.desk, After(clock, w, run).link.desk;
      && (Failing(next) <==> Failing(d) || HasFailed(run))
      && (next.ended <==> d.ended || (Cancelled in d.ioResults && HasFrame(run)) || Ends(run))
      && (Failing(d) ==> next.log.replies == d.log.replies)
    decreases |run|
  {
    hide Inv, Step;
    if run != [] {
      FailingStep(clock, w, run[0]);
      StepKeeps(clock, w, run[0]);
      FailingRun(clock, Step(clock, w, run[0]), run[1..]);
      assert HasFailed(run) <==> IsFailure(run[0]) || HasFailed(run[1..]);
      assert HasFrame(run) <==> run[0].DoFrame? || HasFrame(run[1..]);
    }
  }

  /** The schedule tells whether the desktop has failed, and whether its handlers have already ended. */
  lemma FailsIffFailed(clock: Clock, connType: ConnectionType, run: seq<Event>)
    requires Run(clock, Init(connType), run)
    ensures
      var d := Reached(clock, connType, run).link.desk;
      (Failing(d) <==> HasFailed(run)) && (d.ended <==> Ends(run))
  {
    InitKeeps(clock, connType);
    FailingRun(clock, Init(connType), run);
  }

  // ----------------------------------------------------------------------------------- getting ready

  /** A connection that waits is taken by the next frame. */
  lemma ConnectedIsReady(clock: Clock, w: World)
    requires Inv(clock, w) && w.link.desk.ioResults == [ConnectedResult(w.link.desk.connType)]
    ensures Ready(clock, Step(clock, w, DoFrame(false)), |w.link.desk.log.sends|)
  {
    FrameKeeps(clock, w, false);
    hide Paired, Frame;
    ResultFrame(clock, w.link, w.link.desk.ioResults[0], false);
    var next := Step(clock, w, DoFrame(false));
    var s :| InStage(w, s);
    assert s == Idle;
    assert InStage(next, Idle);
  }

  lemma AcceptedIsConnected(clock: Clock, w: World)
    requires Inv(clock, w) && w.link.desk.accepting
    ensures
      var next := Step(clock, w, DoAccept(Open));
      && Inv(clock, next) && next.link.desk.ioResults == [ConnectedResult(next.link.desk.connType)]
      && next.link.desk.log.sends == w.link.desk.log.sends
  {
    QuietStepKeeps(clock, w, DoAccept(Open));
    hide Paired, InStage;
    assert w.link.desk.ioResults == [];
  }

  /** What is to be done next in a desktop that does not fail. */
  lemma WhereItStands(clock: Clock, w: World, s: Stage)
    requires Inv(clock, w) && InStage(w, s) && !Failing(w.link.desk)
    ensures
      var d := w.link.desk;
      if s != Idle then d.uiEvents == [] && !d.ended
      else if d.uiEvents != [] then |d.uiEvents| == 1 && d.ioResults == [] && !d.ended
      else d.reading || d.accepting || d.ioResults == [ConnectedResult(d.connType)]
  {
    hide Paired;
    var waiting := w.link.desk.ioResults;
    assert waiting == [] || waiting == [waiting[0]];
  }

  /** From any state of a run without a failure the desktop can get ready for the next click. */
  lemma GetsReady(clock: Clock, w: World) returns (more: seq<Event>)
    requires Inv(clock, w) && !Failing(w.link.desk)
    ensures Run(clock, w, more)
    ensures Ready(clock, After(clock, w, more), |w.link.desk.log.sends| + |w.link.desk.uiEvents|)
  {
    var d := w.link.desk;
    var s :| InStage(w, s);
    WhereItStands(clock, w, s);
    assert Run(clock, w, []) && After(clock, w, []) == w;
    more := [];
    if s != Idle {
      more := FinishExchange(clock, w, s);
    } else if d.uiEvents != [] {
      more := FinishWaiting(clock, w);
    } else if !d.reading {
      hide Inv, InStage, Possible, After, Step, Ready, Failing;
      if d.accepting {
        AcceptedIsConnected(clock, w);
        more := OneStep(clock, w, more, DoAccept(Open));
      }
      ConnectedIsReady(clock, After(clock, w, more));
      more := OneStep(clock, w, more, DoFrame(false));
    }
  }

  /**
   Any number of clicks, of both connection types: from every state that a run without a failure reaches,
   the button can be pressed `n` more times and every click gets its reply.
   */
  lemma ClicksGoOn(clock: Clock, connType: ConnectionType, run: seq<Event>, n: nat) returns (more: seq<Event>)
    requires Run(clock, Init(connType), run) && !HasFailed(run)
    ensures
      var w := Reached(clock, connType, run);
      && Run(clock, w, more)
      && var log := After(clock, w, more).link.desk.log;
      |log.sends| == |log.replies| == |w.link.desk.log.sends| + |w.link.desk.uiEvents| + n
  {
    ReachedInv(clock, connType, run);
    FailsIffFailed(clock, connType, run);
    var w := Reached(clock, connType, run);
    hide Reached, Possible, After, Failing, HasFailed;
    var first := GetsReady(clock, w);
    var rest := MoreClicks(clock, After(clock, w, first), |w.link.desk.log.sends| + |w.link.desk.uiEvents|, n);
    RunThenRun(clock, w, first, rest);
    more := first + rest;
  }

  /** Some continuation brings the replies to at least `n`. */
  ghost predicate CanAnswer(clock: Clock, w: World, n: nat) {
    exists more :: Run(clock, w, more) && |After(clock, w, more).link.desk.log.replies| >= n
  }

  /** The desktop can go on answering clicks without end if and only if no accept and no read has failed. */
  lemma GoesOnIffNoFailure(clock: Clock, connType: ConnectionType, run: seq<Event>)
    requires Run(clock, Init(connType), run)
    ensures (forall n: nat :: CanAnswer(clock, Reached(clock, connType, run), n)) <==> !HasFailed(run)
  {
    ReachedInv(clock, connType, run);
    FailsIffFailed(clock, connType, run);
    var w := Reached(clock, connType, run);
    hide Reached, Possible, After, Inv, Failing, HasFailed;
    if HasFailed(run) {
      var n := |w.link.desk.log.replies| + 1;
      forall more | Run(clock, w, more) ensures |After(clock, w, more).link.desk.log.replies| < n {
        FailingRun(clock, w, more);
      }
      assert !CanAnswer(clock, w, n);
    } else {
      forall n: nat ensures CanAnswer(clock, w, n) {
        var more := ClicksGoOn(clock, connType, run, n);
        assert Run(clock, w, more);
      }
    }
  }

  /** A run in which a read fails while a reply is outstanding: the button stays disabled, whatever follows. */
  lemma FailureStrandsAClick(clock: Clock, connType: ConnectionType, n: nat) returns (run: seq<Event>)
    ensures Run(clock, Init(connType), run)
    ensures
      var w := After(clock, Init(connType), run);
      && w.link.desk.ended && w.link.desk.isSending
      && |w.link.desk.log.replies| == n && |w.link.desk.log.sends| == n + 1
      && forall more | Possible(clock, w, more) :: After(clock, w, more).link.desk.isSending
  {
    var start := Init(connType);
    InitKeeps(clock, connType);
    hide Inv, Possible, After, Step;
    var first := GetsReady(clock, start);
    var rest := MoreClicks(clock, After(clock, start, first), 0, n);
    RunThenRun(clock, start, first, rest);
    run := first + rest;
    ReadyIsPressed(clock, After(clock, start, run), n);
    run := OneStep(clock, start, run, DoFrame(true));
    WaitingIsSent(clock, After(clock, start, run));
    run := OneStep(clock, start, run, DoFrame(false));
    DownIsReading(clock, After(clock, start, run), n);
    run := OneStep(clock, start, run, DoReadFailed);
    var w := After(clock, start, run);
    forall more | Possible(clock, w, more) ensures After(clock, w, more).link.desk.isSending {
      EndedForGood(clock, w, more);
    }
  }

  lemma DownIsReading(clock: Clock, w: World, n: nat)
    requires Inv(clock, w) && InStage(w, Down) && !w.link.desk.ended && |w.link.desk.log.sends| == n + 1
    ensures Enabled(w, DoReadFailed)
    ensures
      var next := Step(clock, w, DoReadFailed);
      && Inv(clock, next) && next.link.desk.ended && next.link.desk.isSending
      && |next.link.desk.log.replies| == n && |next.link.desk.log.sends| == n + 1
  {
    QuietStepFacts(w);
    QuietStepKeeps(clock, w, DoReadFailed);
  }

  lemma QuietStepFacts(w: World)
    requires OneContinuation(w.link.desk) && Gated(w.link.desk) && InStage(w, Down) && !w.link.desk.ended
    ensures w.link.desk.reading
  {
  }

  /** A message without content, which this device never sends, would end the desktop as well. */
  lemma EmptyMessageEnds(clock: Clock, w: World, more: seq<Event>)
    requires OneContinuation(w.link.desk) && Enabled(w, DoWsRead) && w.link.wire.wsUp[0].cells == []
    requires Possible(clock, Step(clock, w, DoWsRead), more)
    ensures
      var next := After(clock, Step(clock, w, DoWsRead), more).link.desk;
      next.ended && next.log.replies == w.link.desk.log.replies
  {
    assert Dead(Step(clock, w, DoWsRead).link.desk);
    DeadForGood(clock, Step(clock, w, DoWsRead), more);
  }

  // ------------------------------------------------------------- what is sent, and in which order things happen

  /** The readings of the clock from the given one on. */
  function Readings(from: nat, n: nat): seq<nat> {
    seq(n, i requires 0 <= i < n => from + i)
  }

  function Repeat(text: string, n: nat): string {
    if n == 0 then "" else text + Repeat(text, n - 1)
  }

  lemma TextConcat(a: seq<Cell>, b: seq<Cell>)
    ensures Text(a + b) == Text(a) + Text(b)
  {
  }

  /** Each event of the list sends one click of sixteen bytes, on its own reading of the clock, in order. */
  lemma {:induction false} ClicksInOrder(clock: Clock, k: Link, events: seq<UIEvent>)
    ensures
      var n, log, next := |events|, k.desk.log, Clicks(clock, k, events);
      && next.desk.log.readings == log.readings + n && next.desk.log.sends == log.sends + Readings(log.readings, n)
      && next.wire.wsUp == k.wire.wsUp && next.wire.tcpUp == k.wire.tcpUp
      && (if k.desk.connType == WebSocket then
            && next.wire.tcpDown == k.wire.tcpDown
            && |next.wire.wsDown| == |k.wire.wsDown| + n && k.wire.wsDown <= next.wire.wsDown
            && forall i | |k.wire.wsDown| <= i < |next.wire.wsDown| ::
                 next.wire.wsDown[i].opcode == 1 && Text(next.wire.wsDown[i].cells) == "button clicked\n\0"
          else
            && next.wire.wsDown == k.wire.wsDown
            && Text(next.wire.tcpDown) == Text(k.wire.tcpDown) + Repeat("button clicked\n\0", n))
    decreases |events|
  {
    hide Text, Tagged;
    if events != [] {
      var first := Click(clock, k);
      ClicksInOrder(clock, first, events[1..]);
      TextConcat(k.wire.tcpDown, Tagged(CLICK, |k.desk.log.sends|));
      assert Readings(k.desk.log.readings, |events|)
          == [k.desk.log.readings] + Readings(k.desk.log.readings + 1, |events| - 1);
    }
  }

  /** Results that announce a reply. */
  function Messages(results: seq<IOResult>): nat {
    if results == [] then 0
    else (if results[0] == WsMsgReceived || results[0] == TcpMessageReceived then 1 else 0) + Messages(results[1..])
  }

  function ReadingsOf(replies: seq<Reply>): seq<nat> {
    seq(|replies|, i requires 0 <= i < |replies| => replies[i].reading)
  }

  lemma HandledInOrder(clock: Clock, d: Desk, result: IOResult)
    ensures
      var n, log, next := Messages([result]), d.log, Handle(clock, d, result).log;
      && next.readings == log.readings + n && next.sends == log.sends && log.replies <= next.replies
      && ReadingsOf(next.replies) == ReadingsOf(log.replies) + Readings(log.readings, n)
      && (n == 1 <==> result == WsMsgReceived || result == TcpMessageReceived)
      && n <= 1
  {
    hide ClickOf;
    assert [result][1..] == [];
    match result
    case WsConnected =>
    case WsMsgReceived =>
    case TcpConnected =>
    case TcpMessageReceived =>
    case Cancelled =>
  }

  lemma ReadingsConcat(from: nat, m: nat, n: nat)
    ensures Readings(from, m) + Readings(from + m, n) == Readings(from, m + n)
    ensures Readings(from, 0) == []
  {
  }

  lemma MessagesOfFirst(results: seq<IOResult>)
    requires results != []
    ensures Messages(results) == Messages([results[0]]) + Messages(results[1..])
  {
    assert [results[0]][1..] == [];
  }

  /** Each result of the list that announces a reply is recorded, on its own reading of the clock, in order. */
  lemma {:induction false} HandlersInOrder(clock: Clock, d: Desk, results: seq<IOResult>)
    ensures
      var n, log, next := Messages(results), d.log, HandleAll(clock, d, results).log;
      && next.readings == log.readings + n && next.sends == log.sends && log.replies <= next.replies
      && ReadingsOf(next.replies) == ReadingsOf(log.replies) + Readings(log.readings, n)
    decreases |results|
  {
    hide Handle, Messages, Readings, ReadingsOf;
    ReadingsConcat(d.log.readings, 0, 0);
    if results == [] {
      assert Messages(results) == 0 by { NoMessages(); }
      assert ReadingsOf(d.log.replies) + [] == ReadingsOf(d.log.replies);
    } else {
      var next := Handle(clock, d, results[0]);
      HandledInOrder(clock, d, results[0]);
      MessagesOfFirst(results);
      HandlersInOrder(clock, next, results[1..]);
      ReadingsConcat(d.log.readings, Messages([results[0]]), Messages(results[1..]));
    }
  }

  lemma NoMessages()
    ensures Messages([]) == 0
  {
  }

  /** Within a frame, all clicks that wait are timed before all replies that do. */
  lemma FrameOrder(clock: Clock, k: Link, pressed: bool)
    ensures
      var m, n := |k.desk.uiEvents|, Messages(k.desk.ioResults);
      var log, next := k.desk.log, Frame(clock, k, pressed).desk.log;
      && next.readings == log.readings + m + n
      && next.sends == log.sends + Readings(log.readings, m)
      && ReadingsOf(next.replies) == ReadingsOf(log.replies) + Readings(log.readings + m, n)
  {
    hide Clicks, HandleAll, ReadingsOf, Readings, Messages;
    ClicksFrame(clock, k, k.desk.uiEvents);
    ClicksInOrder(clock, k, k.desk.uiEvents);
    var sent := ProcessUiEvents(clock, k);
    HandlersInOrder(clock, sent.desk, sent.desk.ioResults);
  }
}
