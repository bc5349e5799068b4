/** The assumption that a `recv` of the device returns a whole click: exactly when it matters, and why. */
module ClickDelivery {
  import opened ClickSpec
  import opened ClickInvariant
  import opened ClickRuns

  /** A `recv` of the device keeps the protocol's invariant exactly when it returns a whole click. */
  lemma OnlyWholeClicksKeepStep(clock: Clock, w: World, n: nat)
    requires Inv(clock, w) && Enabled(w, DoDeviceTcp(n))
    ensures Inv(clock, Step(clock, w, DoDeviceTcp(n))) <==> n == |CLICK|
  {
    hide Paired;
    if n == |CLICK| {
      DeviceKeeps(clock, w, DoDeviceTcp(n));
    } else {
      var s :| InStage(w, s);
      var next := Step(clock, w, DoDeviceTcp(n));
      assert next.owed != [] && next.link.wire.tcpDown != [];
      forall t ensures !InStage(next, t) {
      }
    }
  }

  /** Every reply processed so far answers its own click. */
  ghost predicate AllPaired(d: Desk) {
    forall i | 0 <= i < |d.log.replies| :: d.log.replies[i].click == i
  }

  /** However the run goes on, as long as whole clicks are received from now on. */
  ghost predicate StaysPaired(clock: Clock, w: World) {
    forall more | Run(clock, w, more) :: AllPaired(After(clock, w, more).link.desk)
  }

  /**
   A `recv` of the device leaves every future reply paired with its own click if and only if it returns a
   whole click, or the desktop has stopped processing replies. A single short one is enough to go wrong.
   */
  lemma WholeClicksIffPaired(clock: Clock, w: World, n: nat)
    requires Inv(clock, w) && Enabled(w, DoDeviceTcp(n))
    ensures StaysPaired(clock, Step(clock, w, DoDeviceTcp(n))) <==> n == |CLICK| || w.link.desk.ended
  {
    var next := Step(clock, w, DoDeviceTcp(n));
    if n == |CLICK| {
      DeviceKeeps(clock, w, DoDeviceTcp(n));
      forall more | Run(clock, next, more) ensures AllPaired(After(clock, next, more).link.desk) {
        RunKeeps(clock, next, more);
      }
    } else if w.link.desk.ended {
      forall more | Run(clock, next, more) ensures AllPaired(After(clock, next, more).link.desk) {
        DeadForGood(clock, next, more);
      }
    } else {
      var more := ShortRecvMispairs(clock, w, n);
    }
  }

  // ----------------------------------------------------------------------------- how a short recv goes wrong

  lemma {:induction false} RunThenRun(clock: Clock, w: World, first: seq<Event>, more: seq<Event>)
    requires Possible(clock, w, first) && Possible(clock, After(clock, w, first), more)
    ensures Possible(clock, w, first + more)
    ensures After(clock, w, first + more) == After(clock, After(clock, w, first), more)
    decreases |first|
  {
    hide Step;
    if first == [] {
      assert first + more == more;
    } else {
      RunThenRun(clock, Step(clock, w, first[0]), first[1..], more);
      assert (first + more)[1..] == first[1..] + more;
    }
  }

  lemma OneStep(clock: Clock, w: World, first: seq<Event>, e: Event) returns (run: seq<Event>)
    requires Run(clock, w, first) && Enabled(After(clock, w, first), e) && Whole(e)
    ensures Run(clock, w, run) && After(clock, w, run) == Step(clock, After(clock, w, first), e)
  {
    hide Step;
    var next := Step(clock, After(clock, w, first), e);
    assert Possible(clock, next, []) && After(clock, next, []) == next;
    assert [e][1..] == [];
    RunThenRun(clock, w, first, [e]);
    run := first + [e];
  }

  /** A frame in which a click waits and no result does. */
  lemma ClickFrame(clock: Clock, k: Link)
    requires k.desk.uiEvents == [SendButtonClick] && k.desk.ioResults == []
    ensures Frame(clock, k, false) == Click(clock, k).(desk := Click(clock, k).desk.(uiEvents := []))
  {
    OneClick(clock, k);
  }

  /** A frame in which one result waits and no click does. */
  lemma ResultFrame(clock: Clock, k: Link, result: IOResult, pressed: bool)
    requires k.desk.uiEvents == [] && k.desk.ioResults == [result]
    ensures
      Frame(clock, k, pressed) == k.(desk := Render(Handle(clock, k.desk, result).(ioResults := []), pressed))
  {
    assert ProcessUiEvents(clock, k) == k;
    assert [result][1..] == [] && HandleAll(clock, Handle(clock, k.desk, result), []) == Handle(clock, k.desk, result);
  }

  /** The reply owed is sent and gathered in one piece. */
  lemma ReplyArrives(clock: Clock, start: World, first: seq<Event>) returns (run: seq<Event>)
    requires Run(clock, start, first)
    requires
      var w := After(clock, start, first);
      var d := w.link.desk;
      && |w.owed| == 1 && w.link.wire.tcpUp == []
      && d.connType == CustomTcp && d.reading && d.gathered == 0 && |d.tcpReadBuf| == |RECEIVED| && d.ioResults == []
    ensures Run(clock, start, run)
    ensures
      var w := After(clock, start, first);
      var d := w.link.desk;
      After(clock, start, run) ==
      World(
        Link(d.(reading := false, gathered := |RECEIVED|, tcpReadBuf := Tagged(RECEIVED, w.owed[0]),
                ioResults := [TcpMessageReceived]),
             w.link.wire),
        [])
  {
    hide Possible, After;
    run := OneStep(clock, start, first, DoDeviceReply);
    run := OneStep(clock, start, run, DoTcpRead(|RECEIVED|));
    var w, d := After(clock, start, first), After(clock, start, first).link.desk;
    var cells := Tagged(RECEIVED, w.owed[0]);
    assert [] + cells == cells && cells[|RECEIVED|..] == [] && w.owed[1..] == [];
    assert d.tcpReadBuf[..0] + cells[..|RECEIVED|] + d.tcpReadBuf[|RECEIVED|..] == cells;
    assert d.ioResults + [TcpMessageReceived] == [TcpMessageReceived];
  }

  /** The reply owed arrives, and a frame processes it. */
  lemma ReplyShown(clock: Clock, start: World, first: seq<Event>, pressed: bool) returns (run: seq<Event>)
    requires Run(clock, start, first)
    requires
      var w := After(clock, start, first);
      var d := w.link.desk;
      && |w.owed| == 1 && w.link.wire.tcpUp == [] && d.connType == CustomTcp && d.tcpSock && d.reading
      && d.gathered == 0 && |d.tcpReadBuf| == |RECEIVED| && d.ioResults == [] && d.uiEvents == []
    ensures Run(clock, start, run)
    ensures
      var w := After(clock, start, first);
      var d, cells, log := w.link.desk, Tagged(RECEIVED, w.owed[0]), w.link.desk.log;
      var latency := clock(log.readings) - d.timeSend;
      After(clock, start, run) ==
      World(
        Link(d.(tcpReadBuf := cells, isSending := false, latency := latency,
                uiEvents := if pressed then [SendButtonClick] else [],
                log := Log(log.readings + 1, log.sends, log.replies + [Reply(w.owed[0], log.readings, latency)])),
             w.link.wire),
        [])
  {
    hide Possible, After, Frame;
    run := ReplyArrives(clock, start, first);
    ResultFrame(clock, After(clock, start, run).link, TcpMessageReceived, pressed);
    run := OneStep(clock, start, run, DoFrame(pressed));
    assert [] + [SendButtonClick] == [SendButtonClick];
  }

  /** While part of a click has been received and not yet answered. */
  lemma PartReceived(clock: Clock, w: World, n: nat)
    requires Inv(clock, w) && Enabled(w, DoDeviceTcp(n)) && !w.link.desk.ended
    ensures
      var d, c := w.link.desk, |w.link.desk.log.replies|;
      && Step(clock, w, DoDeviceTcp(n)) == World(Link(d, QUIET.(tcpDown := Tagged(CLICK, c)[n..])), [c])
      && d.connType == CustomTcp && d.reading && d.tcpSock && d.isSending && d.gathered == 0
      && |d.tcpReadBuf| == |RECEIVED| && d.ioResults == [] && d.uiEvents == [] && |d.log.sends| == c + 1
  {
    hide Paired;
  }

  lemma RestComesFirst(c: nat, n: nat)
    requires n < |CLICK|
    ensures ClickOf((Tagged(CLICK, c)[n..] + Tagged(CLICK, c + 1))[..|CLICK|]) == c
  {
  }

  /**
   The device answers the part it received. The button is pressed again, and the next `recv` returns the
   sixteen bytes that begin with the rest of the old click: their answer is taken for the new click's.
   */
  lemma ShortRecvMispairs(clock: Clock, w: World, n: nat) returns (run: seq<Event>)
    requires Inv(clock, w) && Enabled(w, DoDeviceTcp(n)) && !w.link.desk.ended && n < |CLICK|
    ensures Run(clock, Step(clock, w, DoDeviceTcp(n)), run)
    ensures
      var c, log := |w.link.desk.log.replies|, After(clock, Step(clock, w, DoDeviceTcp(n)), run).link.desk.log;
      |log.sends| == |log.replies| == c + 2 && log.replies[c + 1].click == c
  {
    PartReceived(clock, w, n);
    var start, c := Step(clock, w, DoDeviceTcp(n)), |w.link.desk.log.replies|;
    assert Run(clock, start, []) && After(clock, start, []) == start;
    hide Inv, Possible, After, Frame, Tagged, Text, ClickOf;
    run := ReplyShown(clock, start, [], true);
    ClickFrame(clock, After(clock, start, run).link);
    run := OneStep(clock, start, run, DoFrame(false));
    var rest := Tagged(CLICK, c)[n..];
    assert After(clock, start, run).link.wire.tcpDown == rest + Tagged(CLICK, c + 1);
    RestComesFirst(c, n);
    run := OneStep(clock, start, run, DoDeviceTcp(|CLICK|));
    run := ReplyShown(clock, start, run, false);
  }

  // ---------------------------------------------------------------------------------------- an example

  /** The first click is sent. */
  lemma FirstClick(clock: Clock) returns (run: seq<Event>)
    ensures Run(clock, Init(CustomTcp), run)
    ensures
      var w := After(clock, Init(CustomTcp), run);
      Inv(clock, w) && !w.link.desk.ended && w.link.wire.tcpDown == Tagged(CLICK, 0) && w.owed == []
  {
    var w := Init(CustomTcp);
    assert Run(clock, w, []) && After(clock, w, []) == w;
    hide Possible, After, Frame;
    run := OneStep(clock, w, [], DoAccept(Open));
    ResultFrame(clock, After(clock, w, run).link, TcpConnected, true);
    run := OneStep(clock, w, run, DoFrame(true));
    ClickFrame(clock, After(clock, w, run).link);
    run := OneStep(clock, w, run, DoFrame(false));
    ReachedInv(clock, CustomTcp, run);
  }

  /** When half of it is received, the answer to the other half is taken for the answer to the second click. */
  lemma HalfClicksMispair(clock: Clock) returns (run: seq<Event>)
    ensures Possible(clock, Init(CustomTcp), run)
    ensures
      var log := After(clock, Init(CustomTcp), run).link.desk.log;
      |log.sends| == |log.replies| == 2 && log.replies[1].click == 0
  {
    var first := FirstClick(clock);
    var w := After(clock, Init(CustomTcp), first);
    var more := ShortRecvMispairs(clock, w, |CLICK| / 2);
    assert Possible(clock, w, [DoDeviceTcp(|CLICK| / 2)] + more);
    run := first + ([DoDeviceTcp(|CLICK| / 2)] + more);
    RunThenRun(clock, Init(CustomTcp), first, [DoDeviceTcp(|CLICK| / 2)] + more);
  }
}
