/** What holds in every run of the click protocol, whatever the interleaving of handlers, device and network. */
module ClickRuns {
  import opened ClickSpec
  import opened ClickInvariant

  /** A run which the runtime can schedule, in which the device receives whole clicks. */
  ghost predicate Run(clock: Clock, w: World, run: seq<Event>) {
    Possible(clock, w, run) && forall e | e in run :: Whole(e)
  }

  lemma {:induction false} RunKeeps(clock: Clock, w: World, run: seq<Event>)
    requires Inv(clock, w) && Run(clock, w, run)
    ensures Inv(clock, After(clock, w, run))
    decreases |run|
  {
    hide Inv, Step;
    if run != [] {
      StepKeeps(clock, w, run[0]);
      RunKeeps(clock, Step(clock, w, run[0]), run[1..]);
    }
  }

  /** The state after a run from the start. */
  ghost function Reached(clock: Clock, connType: ConnectionType, run: seq<Event>): World
    requires Run(clock, Init(connType), run)
  {
    After(clock, Init(connType), run)
  }

  lemma ReachedInv(clock: Clock, connType: ConnectionType, run: seq<Event>)
    requires Run(clock, Init(connType), run)
    ensures Inv(clock, Reached(clock, connType, run))
  {
    InitKeeps(clock, connType);
    RunKeeps(clock, Init(connType), run);
  }

  // --------------------------------------------------------------------------------------- conservation

  /** Clicks on their way down, replies owed, replies on their way up or gathered, and replies waiting. */
  function Outstanding(w: World): nat {
    var d, wire := w.link.desk, w.link.wire;
    |wire.wsDown| + |wire.tcpDown| / |CLICK|
    + |w.owed|
    + |wire.wsUp| + (|wire.tcpUp| + d.gathered) / |RECEIVED|
    + (if WsMsgReceived in d.ioResults then 1 else 0)
  }

  /** There is one click or reply in the whole system while the button is disabled, and none otherwise. */
  lemma Conservation(clock: Clock, connType: ConnectionType, run: seq<Event>)
    requires Run(clock, Init(connType), run)
    ensures
      var w := Reached(clock, connType, run);
      && Outstanding(w) == (if w.link.desk.isSending then 1 else 0)
      && |w.link.wire.tcpDown| % |CLICK| == 0
      && (|w.link.wire.tcpUp| + w.link.desk.gathered) % |RECEIVED| == 0
  {
    ReachedInv(clock, connType, run);
    StageCounts(clock, Reached(clock, connType, run));
  }

  lemma StageCounts(clock: Clock, w: World)
    requires Inv(clock, w)
    ensures Outstanding(w) == (if w.link.desk.isSending then 1 else 0)
    ensures |w.link.wire.tcpDown| % |CLICK| == 0
    ensures (|w.link.wire.tcpUp| + w.link.desk.gathered) % |RECEIVED| == 0
  {
    var s :| InStage(w, s);
    hide InStage, OneContinuation, Gated, Paired;
    StageLengths(w, s);
    StageWaits(w, s);
    NoneOrOne(|w.link.wire.tcpDown|, |CLICK|);
    NoneOrOne(|w.link.wire.tcpUp| + w.link.desk.gathered, |RECEIVED|);
  }

  lemma NoneOrOne(n: nat, unit: nat)
    requires unit > 0 && (n == 0 || n == unit)
    ensures n / unit == (if n == 0 then 0 else 1) && n % unit == 0
  {
  }

  lemma StageWaits(w: World, s: Stage)
    requires OneContinuation(w.link.desk) && InStage(w, s)
    ensures WsMsgReceived in w.link.desk.ioResults <==> s == Queued && w.link.desk.connType == WebSocket
  {
    var waiting := w.link.desk.ioResults;
    assert waiting == [] || waiting == [waiting[0]];
  }

  lemma StageLengths(w: World, s: Stage)
    requires InStage(w, s)
    ensures
      var d, wire := w.link.desk, w.link.wire;
      var isWs := d.connType == WebSocket;
      && d.isSending == (s != Idle)
      && |wire.wsDown| == (if s == Down && isWs then 1 else 0)
      && |wire.tcpDown| == (if s == Down && !isWs then |CLICK| else 0)
      && |w.owed| == (if s == Owed then 1 else 0)
      && |wire.wsUp| == (if s == Up && isWs then 1 else 0)
      && |wire.tcpUp| + d.gathered == (if (s == Up || s == Queued) && !isWs then |RECEIVED| else 0)
  {
    var d := w.link.desk;
    assert |d.tcpReadBuf[..d.gathered] + w.link.wire.tcpUp| == d.gathered + |w.link.wire.tcpUp|;
  }

  /** Whatever a `recv` of the device returns comes from a single click. */
  lemma NoRecvMixesClicks(clock: Clock, connType: ConnectionType, run: seq<Event>)
    requires Run(clock, Init(connType), run)
    ensures
      var w := Reached(clock, connType, run);
      forall cell | cell in w.link.wire.tcpDown :: cell.click == |w.link.desk.log.replies|
  {
    ReachedInv(clock, connType, run);
  }

  // --------------------------------------------------------------------------- latencies, gate, handlers

  /**
   The latency shown after the `i`-th reply is the time from the `i`-th click to the processing of the
   device's answer to that very click; it is not negative, and the clicks do not overlap.
   */
  lemma LatencyPairing(clock: Clock, connType: ConnectionType, run: seq<Event>)
    requires Monotone(clock) && Run(clock, Init(connType), run)
    ensures
      var d := Reached(clock, connType, run).link.desk;
      var log := d.log;
      && |log.replies| <= |log.sends| <= |log.replies| + 1
      && (forall i | 0 <= i < |log.replies| ::
            && log.replies[i].click == i
            && log.replies[i].latency == clock(log.replies[i].reading) - clock(log.sends[i])
            && log.replies[i].latency >= 0)
      && (forall i | 0 <= i < |log.sends| - 1 :: log.replies[i].reading < log.sends[i + 1])
      && (log.replies != [] ==> d.latency == log.replies[|log.replies| - 1].latency)
  {
    ReachedInv(clock, connType, run);
    var log := Reached(clock, connType, run).link.desk.log;
    forall i | 0 <= i < |log.replies| ensures log.replies[i].latency >= 0 {
      assert clock(log.sends[i]) <= clock(log.replies[i].reading);
    }
  }

  /** Exactly one of: accepting, reading, one result queued, the chain of handlers ended. */
  lemma SingleContinuation(clock: Clock, connType: ConnectionType, run: seq<Event>)
    requires Run(clock, Init(connType), run)
    ensures
      var d := Reached(clock, connType, run).link.desk;
      && (if d.accepting then 1 else 0) + (if d.reading then 1 else 0) + |d.ioResults| + (if d.ended then 1 else 0) == 1
      && CanHandleAll(clock, d, d.ioResults)
  {
    ReachedInv(clock, connType, run);
    IoKeeps(clock, Reached(clock, connType, run));
  }

  /** At most one click waits, for a socket of the right kind, and never beside an outstanding reply. */
  lemma ClickGate(clock: Clock, connType: ConnectionType, run: seq<Event>)
    requires Run(clock, Init(connType), run)
    ensures
      var d := Reached(clock, connType, run).link.desk;
      && |d.uiEvents| <= 1
      && (d.uiEvents != [] ==> !d.isSending && if connType == WebSocket then d.ws else d.tcpSock)
      && d.connType == connType
      && (if connType == WebSocket then !d.tcpSock else !d.ws)
  {
    ReachedInv(clock, connType, run);
    ConnTypeIsFixed(clock, Init(connType), run);
  }

  lemma FrameKeepsConnType(clock: Clock, k: Link, pressed: bool)
    ensures Frame(clock, k, pressed).desk.connType == k.desk.connType
  {
    hide Clicks, HandleAll;
    ClicksFrame(clock, k, k.desk.uiEvents);
    var sent := ProcessUiEvents(clock, k);
    HandlersFrame(clock, sent.desk, sent.desk.ioResults);
  }

  lemma StepKeepsConnType(clock: Clock, w: World, e: Event)
    requires Enabled(w, e)
    ensures Step(clock, w, e).link.desk.connType == w.link.desk.connType
  {
    hide Frame, Tagged;
    if e.DoFrame? {
      FrameKeepsConnType(clock, w.link, e.pressed);
    }
  }

  lemma {:induction false} ConnTypeIsFixed(clock: Clock, w: World, run: seq<Event>)
    requires Possible(clock, w, run)
    ensures After(clock, w, run).link.desk.connType == w.link.desk.connType
    decreases |run|
  {
    hide Step;
    if run != [] {
      StepKeepsConnType(clock, w, run[0]);
      ConnTypeIsFixed(clock, Step(clock, w, run[0]), run[1..]);
    }
  }

  // ------------------------------------------------------------------------------- progress, and its end

  /** How many more steps an outstanding click needs when nothing fails. */
  function StepsLeft(s: Stage): nat {
    match s
    case Idle => 0
    case Down => 4
    case Owed => 3
    case Up => 2
    case Queued => 1
  }

  function NextStage(s: Stage): Stage {
    match s
    case Down => Owed
    case Owed => Up
    case Up => Queued
    case _ => Idle
  }

  /** While the chain of handlers is alive, some step moves an exchange on. */
  lemma ExchangeMoves(clock: Clock, w: World, s: Stage) returns (e: Event)
    requires Inv(clock, w) && InStage(w, s) && s != Idle && !w.link.desk.ended
    ensures Enabled(w, e) && Whole(e)
    ensures
      var next := Step(clock, w, e);
      && Inv(clock, next) && InStage(next, NextStage(s))
      && !next.link.desk.ended && next.link.desk.log.sends == w.link.desk.log.sends
      && (NextStage(s) == Idle ==> next.link.desk.reading && next.link.desk.uiEvents == [])
  {
    hide Paired;
    var d := w.link.desk;
    match s {
      case Down =>
        e := if d.connType == WebSocket then DoDeviceWs else DoDeviceTcp(|CLICK|);
        DeviceKeeps(clock, w, e);
      case Owed =>
        e := DoDeviceReply;
        DeviceKeeps(clock, w, e);
      case Up =>
        UpIsRead(clock, w);
        if d.connType == WebSocket {
          e := DoWsRead;
          WsReadKeeps(clock, w);
        } else {
          e := DoTcpRead(|RECEIVED| - d.gathered);
          TcpReadKeeps(clock, w, e.n);
        }
      case Queued =>
        e := DoFrame(false);
        QueuedIsAnswered(clock, w);
    }
  }

  /** A reply on its way up finds a read pending. */
  lemma UpIsRead(clock: Clock, w: World)
    requires Inv(clock, w) && InStage(w, Up) && !w.link.desk.ended
    ensures w.link.desk.reading
    ensures w.link.desk.connType == CustomTcp ==>
              |w.link.wire.tcpUp| == |RECEIVED| - w.link.desk.gathered
  {
  }

  /** The next frame processes a reply that waits. */
  lemma QueuedIsAnswered(clock: Clock, w: World)
    requires Inv(clock, w) && InStage(w, Queued)
    ensures
      var next := Step(clock, w, DoFrame(false));
      && Inv(clock, next) && InStage(next, Idle)
      && !next.link.desk.ended && next.link.desk.log.sends == w.link.desk.log.sends
      && next.link.desk.reading && next.link.desk.uiEvents == []
  {
    assert w.link.desk.uiEvents == [] && ProcessUiEvents(clock, w.link) == w.link;
    var handled := ProcessIOResults(clock, w.link.desk);
    assert Step(clock, w, DoFrame(false)) == w.(link := w.link.(desk := handled));
    hide InStage, Paired;
    IoKeeps(clock, w);
    HandlersFrame(clock, w.link.desk, w.link.desk.ioResults);
  }

  lemma {:induction false} ExchangeEnds(clock: Clock, w: World, s: Stage) returns (run: seq<Event>)
    requires Inv(clock, w) && InStage(w, s) && !w.link.desk.ended
    ensures Run(clock, w, run) && |run| == StepsLeft(s)
    ensures
      var next := After(clock, w, run);
      && Inv(clock, next) && InStage(next, Idle) && next.link.desk.log.sends == w.link.desk.log.sends
      && (s != Idle ==> next.link.desk.reading && next.link.desk.uiEvents == [])
    decreases StepsLeft(s)
  {
    hide Inv, InStage, Step;
    run := [];
    if s != Idle {
      var e := ExchangeMoves(clock, w, s);
      var rest := ExchangeEnds(clock, Step(clock, w, e), NextStage(s));
      run := [e] + rest;
      assert run[1..] == rest;
    }
  }

  /** In no reachable state is a click stuck: unless a read has failed, four steps can bring its reply. */
  lemma ClickCanBeAnswered(clock: Clock, connType: ConnectionType, run: seq<Event>) returns (more: seq<Event>)
    requires Run(clock, Init(connType), run)
    requires !Reached(clock, connType, run).link.desk.ended
    ensures
      var w := Reached(clock, connType, run);
      && Run(clock, w, more) && |more| <= 4
      && var d := After(clock, w, more).link.desk;
      && !d.isSending && d.log.sends == w.link.desk.log.sends && |d.log.replies| == |d.log.sends|
  {
    ReachedInv(clock, connType, run);
    var w := Reached(clock, connType, run);
    var s :| InStage(w, s);
    more := ExchangeEnds(clock, w, s);
  }

  /** No handler is to come but the frames: nothing is outstanding, and no result waits. */
  predicate Dead(d: Desk) {
    d.ended && !d.accepting && !d.reading && d.ioResults == []
  }

  lemma DeadStep(clock: Clock, w: World, e: Event)
    requires Dead(w.link.desk) && Enabled(w, e)
    ensures
      var d, next := w.link.desk, Step(clock, w, e).link.desk;
      && Dead(next) && next.log.replies == d.log.replies
      && (d.isSending && d.uiEvents == [] ==>
            next.isSending && next.uiEvents == [] && next.log.sends == d.log.sends)
  {
    hide Clicks, Tagged;
    var k := w.link;
    ClicksFrame(clock, k, k.desk.uiEvents);
    assert k.desk.uiEvents == [] ==> ProcessUiEvents(clock, k) == k by {
      assert Clicks(clock, k, []) == k by { NoClicks(clock, k); }
    }
  }

  lemma NoClicks(clock: Clock, k: Link)
    ensures Clicks(clock, k, []) == k
  {
  }

  lemma {:induction false} DeadForGood(clock: Clock, w: World, run: seq<Event>)
    requires Dead(w.link.desk) && Possible(clock, w, run)
    ensures
      var d, next := w.link.desk, After(clock, w, run).link.desk;
      && Dead(next) && next.log.replies == d.log.replies
      && (d.isSending && d.uiEvents == [] ==> next.isSending && next.log.sends == d.log.sends)
    decreases |run|
  {
    hide Step;
    if run != [] {
      DeadStep(clock, w, run[0]);
      DeadForGood(clock, Step(clock, w, run[0]), run[1..]);
    }
  }

  /**
   After a failed read the desktop never recovers: whatever happens, no further reply is processed, and
   a click whose reply was outstanding leaves the button disabled for good.
   */
  lemma EndedForGood(clock: Clock, w: World, run: seq<Event>)
    requires Inv(clock, w) && w.link.desk.ended && Possible(clock, w, run)
    ensures
      var d, next := w.link.desk, After(clock, w, run).link.desk;
      && next.ended && next.log.replies == d.log.replies
      && (d.isSending ==> next.isSending && next.log.sends == d.log.sends)
  {
    DeadForGood(clock, w, run);
  }
}
