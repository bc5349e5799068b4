/** The device's idle shutdown: a one-shot timer, reset by every data event, signals the main task. */
module IdleShutdown {

  /** `NO_DATA_TIMEOUT_SEC`, in milliseconds. */
  const TIMEOUT: nat := 5000

  datatype Option<T> = None | Some(value: T)

  /**
   Time, the timer's expiry while it runs, the binary semaphore, and whether the client was torn down.
   The last data event is recorded for the proofs.
   */
  datatype Idle = Idle(now: nat, expiry: Option<nat>, signalled: bool, stopped: bool, lastData: Option<nat>)

  datatype Event = Pass(time: nat) | Data | Fire | TearDown

  /** The timer is created but not started; the first data event starts it. */
  const CREATED: Idle := Idle(0, None, false, false, None)

  /** A one-shot timer fires once its period is over; a destroyed client reports no data. */
  predicate Enabled(i: Idle, e: Event) {
    match e
    case Pass(_) => true
    case Data => !i.stopped
    case Fire => i.expiry.Some? && i.expiry.value <= i.now
    case TearDown => i.signalled && !i.stopped
  }

  function Step(i: Idle, e: Event): Idle {
    match e
    case Pass(time) => i.(now := i.now + time)
    case Data => i.(expiry := Some(i.now + TIMEOUT), lastData := Some(i.now))
    case Fire => i.(expiry := None, signalled := true)
    case TearDown => i.(signalled := false, stopped := true)
  }

  ghost predicate Run(run: seq<Event>)
    decreases |run|
  {
    run == [] || (Run(Before(run)) && Enabled(After(Before(run)), Last(run)))
  }

  function After(run: seq<Event>): Idle
    decreases |run|
  {
    if run == [] then CREATED else Step(After(Before(run)), Last(run))
  }

  function Last(run: seq<Event>): Event
    requires run != []
  {
    run[|run| - 1]
  }

  function Before(run: seq<Event>): (before: seq<Event>)
    requires run != []
    ensures |before| < |run| && run == before + [Last(run)]
  {
    run[..|run| - 1]
  }

  /** The time that has passed since the last data event of a schedule, or since its start. */
  function SinceData(run: seq<Event>): nat
    decreases |run|
  {
    if run == [] || Last(run).Data? then 0
    else SinceData(Before(run)) + (if Last(run).Pass? then Last(run).time else 0)
  }

  /** Data has come since the timer last fired. */
  predicate DataSinceFire(run: seq<Event>)
    decreases |run|
  {
    run != [] && !Last(run).Fire? && (Last(run).Data? || DataSinceFire(Before(run)))
  }

  /** The timer has fired, and no teardown has taken the signal since. */
  predicate Signalled(run: seq<Event>)
    decreases |run|
  {
    run != [] && !Last(run).TearDown? && (Last(run).Fire? || Signalled(Before(run)))
  }

  function TearDowns(run: seq<Event>): nat
    decreases |run|
  {
    if run == [] then 0 else TearDowns(Before(run)) + (if Last(run).TearDown? then 1 else 0)
  }

  /** For `TIMEOUT` there has been no data event, after at least one. */
  predicate Silent(i: Idle) {
    i.lastData.Some? && i.lastData.value + TIMEOUT <= i.now
  }

  predicate Inv(run: seq<Event>) {
    var i := After(run);
    && (i.lastData.Some? <==> Data in run)
    && (i.expiry.Some? ==> i.lastData.Some? && i.expiry.value == i.lastData.value + TIMEOUT)
    && (i.expiry.None? && i.lastData.Some? ==> Silent(i) && Fire in run)
    && (Fire in run ==> Data in run && (i.signalled || i.stopped))
    && (i.stopped ==> Fire in run)
    && (i.lastData.Some? ==> i.now == i.lastData.value + SinceData(run))
    && (i.expiry.Some? <==> DataSinceFire(run))
    && (i.signalled <==> Signalled(run)) && (i.signalled ==> Fire in run)
    && (i.stopped <==> TearDown in run)
    && TearDowns(run) == (if i.stopped then 1 else 0)
  }

  lemma {:induction false} RunKeeps(run: seq<Event>)
    requires Run(run)
    ensures Inv(run)
    decreases |run|
  {
    if run != [] {
      RunKeeps(Before(run));
    }
  }

  lemma OneMore(run: seq<Event>, e: Event)
    requires Run(run) && Enabled(After(run), e)
    ensures Run(run + [e]) && After(run + [e]) == Step(After(run), e)
  {
    assert Before(run + [e]) == run;
  }

  /** One more event of a schedule, after some time. */
  lemma RunOn(run: seq<Event>, time: nat, e: Event) returns (more: seq<Event>)
    requires Run(run) && Enabled(Step(After(run), Pass(time)), e)
    ensures more == run + [Pass(time), e]
    ensures Run(more) && After(more) == Step(Step(After(run), Pass(time)), e)
  {
    hide Run, After;
    OneMore(run, Pass(time));
    OneMore(run + [Pass(time)], e);
    more := run + [Pass(time)] + [e];
  }

  /** The timer fires exactly when data has come since it last did, and then nothing for five seconds. */
  lemma SignalIffSilence(run: seq<Event>)
    requires Run(run)
    ensures Enabled(After(run), Fire) <==> DataSinceFire(run) && SinceData(run) >= 5000
    ensures Enabled(After(run), Fire) ==> Data in run && Silent(After(run))
  {
    RunKeeps(run);
  }

  /**
   The client can be torn down exactly when there has been a signal and no teardown yet, so only after data.
   At that moment there has been silence exactly when no data came since the timer fired, or it came long
   ago: data that comes between the signal and the main task's taking it restarts the timer, but does not
   take the signal back.
   */
  lemma TearDownRule(run: seq<Event>)
    requires Run(run)
    ensures Enabled(After(run), TearDown) <==> Fire in run && TearDown !in run
    ensures Enabled(After(run), TearDown) ==>
              && Data in run
              && (Silent(After(run)) <==> !DataSinceFire(run) || SinceData(run) >= 5000)
              && (Silent(After(run)) <==> After(run).expiry.None? || After(run).expiry.value <= After(run).now)
  {
    RunKeeps(run);
  }

  /** The teardown stops the client: no data event, and no second teardown, in whatever comes after it. */
  lemma {:induction false} TearDownIsFinal(run: seq<Event>, more: seq<Event>)
    requires Run(run + [TearDown] + more)
    ensures After(run + [TearDown] + more).stopped
    ensures Data !in more && TearDown !in more
    decreases |more|
  {
    var whole := run + [TearDown] + more;
    assert whole[|run|] == TearDown;
    RunKeeps(whole);
    if more != [] {
      assert Before(whole) == run + [TearDown] + Before(more);
      TearDownIsFinal(run, Before(more));
      assert Last(whole) == Last(more) && more == Before(more) + [Last(more)];
    }
  }

  /** A client is stopped exactly when its schedule has a teardown, and no schedule has two. */
  lemma StoppedIffTornDown(run: seq<Event>)
    requires Run(run)
    ensures After(run).stopped <==> TearDown in run
    ensures TearDowns(run) <= 1
  {
    RunKeeps(run);
  }

  /** After data, five seconds of silence are enough for the teardown, whatever happened before. */
  lemma SilenceBringsTearDown(run: seq<Event>) returns (more: seq<Event>)
    requires Run(run) && Data in run && TearDown !in run
    ensures more == [Pass(5000)] + (if DataSinceFire(run) then [Fire] else []) + [TearDown]
    ensures Run(run + more)
  {
    hide Run, After, DataSinceFire, SinceData, Signalled, TearDowns;
    RunKeeps(run);
    OneMore(run, Pass(5000));
    var next := run + [Pass(5000)];
    more := [Pass(5000)] + (if DataSinceFire(run) then [Fire] else []) + [TearDown];
    if DataSinceFire(run) {
      OneMore(next, Fire);
      OneMore(next + [Fire], TearDown);
      assert run + more == next + [Fire] + [TearDown];
    } else {
      OneMore(next, TearDown);
      assert run + more == next + [TearDown];
    }
  }

  /** A main task that takes the signal at once tears down after silence. */
  lemma PromptTearDownIsSilent(run: seq<Event>)
    requires Run(run + [Fire, TearDown])
    ensures Silent(After(run + [Fire]))
  {
    var fired := run + [Fire];
    assert Before(run + [Fire, TearDown]) == fired && Before(fired) == run;
    SignalIffSilence(run);
  }

  /** A slow one can tear down just after data came. */
  lemma LateTearDownIsNotSilent()
    ensures
      var run := [Data, Pass(5000), Fire, Data];
      Run(run) && Enabled(After(run), TearDown) && !Silent(After(run))
  {
    var first := [Data];
    var waited, fired := [Data, Pass(5000)], [Data, Pass(5000), Fire];
    assert Before(first) == [] && Before(waited) == first && Before(fired) == waited;
    assert Before([Data, Pass(5000), Fire, Data]) == fired;
    assert After(first) == CREATED.(expiry := Some(TIMEOUT), lastData := Some(0)) && Run(first);
    assert After(waited) == Step(After(first), Pass(5000)) && Run(waited);
    assert After(fired) == Step(After(waited), Fire) && Run(fired);
  }

  /** However the schedule goes on, the client gets no data and is not torn down again. */
  ghost predicate Final(run: seq<Event>) {
    forall more | Run(run + more) :: Data !in more && TearDown !in more
  }

  /** What a schedule tells that ends with a teardown. */
  lemma TornDown(run: seq<Event>, time: nat)
    requires Run(run + [Pass(time), TearDown])
    ensures
      var torn := run + [Pass(time), TearDown];
      && Data in torn && Fire in torn && TearDown !in run && TearDowns(torn) == 1
      && (!DataSinceFire(torn) ==> SinceData(torn) >= 5000)
      && Final(torn)
  {
    var before := run + [Pass(time)];
    var torn := run + [Pass(time), TearDown];
    assert torn == before + [TearDown] && Before(torn) == before;
    RunKeeps(torn);
    StoppedIffTornDown(before);
    forall more | Run(torn + more) ensures Data !in more && TearDown !in more {
      TearDownIsFinal(before, more);
    }
  }

  /** The static timer and semaphore of the device's main file. */
  class WebsocketApp {
    var now: nat
    var timer: Option<nat>
    var sema: bool
    var stopped: bool
    ghost var lastData: Option<nat>

    /** The schedule that led here. */
    ghost var history: seq<Event>

    ghost function View(): Idle
      reads this
    {
      Idle(now, timer, sema, stopped, lastData)
    }

    ghost predicate Valid()
      reads this
    {
      Run(history) && View() == After(history)
    }

    /** `e` may happen when `time` has passed. */
    ghost predicate CanRun(time: nat, e: Event)
      reads this
    {
      Valid() && Enabled(Step(View(), Pass(time)), e)
    }

    constructor ()
      ensures Valid() && history == []
    {
      now, timer, sema, stopped, lastData := 0, None, false, false, None;
      history := [];
    }

    /** The end of the data event, `time` after the event before it: `xTimerReset`. */
    method OnData(time: nat)
      requires CanRun(time, Data)
      modifies this
      ensures Valid() && history == old(history) + [Pass(time), Data]
      ensures View() == Step(Step(old(View()), Pass(time)), Data)
    {
      history := RunOn(history, time, Data);
      now := now + time;
      timer := Some(now + TIMEOUT);
      lastData := Some(now);
    }

    /** The timer's callback: `xSemaphoreGive`. It comes only after silence. */
    method ShutdownSignaler(time: nat)
      requires CanRun(time, Fire)
      modifies this
      ensures Valid() && history == old(history) + [Pass(time), Fire]
      ensures View() == Step(Step(old(View()), Pass(time)), Fire)
      ensures Data in history && SinceData(history) >= 5000
      ensures TearDown !in history <==> Enabled(View(), TearDown)
    {
      history := RunOn(history, time, Fire);
      now := now + time;
      timer := None;
      sema := true;
      RunKeeps(history);
    }

    /** `xSemaphoreTake` returns, and the client is closed and destroyed. */
    method TearDownClient(time: nat)
      requires CanRun(time, TearDown)
      modifies this
      ensures Valid() && history == old(history) + [Pass(time), TearDown]
      ensures View() == Step(Step(old(View()), Pass(time)), TearDown)
      ensures Data in history && Fire in history
      ensures !DataSinceFire(history) ==> SinceData(history) >= 5000
      ensures stopped && TearDown !in old(history) && TearDowns(history) == 1 && Final(history)
    {
      hide Run, After, DataSinceFire, SinceData, TearDowns, Final;
      ghost var before := history;
      history := RunOn(before, time, TearDown);
      TornDown(before, time);
      now := now + time;
      sema := false;
      stopped := true;
    }
  }
}
