/** What becomes of a connect, read off the schedule: its calls, its way past the semaphores, and its result. */
module WifiOutcomes {
  import opened WifiSpec
  import opened WifiRuns

  // ------------------------------------------------------------------------- calls and registration, exactly

  /**
   `esp_wifi_connect` is called once by each connecting task that comes so far, and once for each disconnect,
   other than for roaming, that comes while retries are left.
   */
  lemma {:induction false} ConnectsExactly(c: Config, run: seq<Event>)
    requires Run(c, run)
    ensures After(c, run).connects == Calls(run) + Reconnects(c, run)
    decreases |run|
  {
    if run != [] {
      ConnectsExactly(c, Before(run));
      RunCounts(c, Before(run));
    }
  }

  lemma {:induction false} RunDispatches(c: Config, run: seq<Event>)
    requires Run(c, run)
    ensures
      var w := After(c, run);
      && (w.registered <==> Dispatching(c, run))
      && (w.tearing ==> Drops(c, run) > 0)
    decreases |run|
  {
    if run != [] {
      RunDispatches(c, Before(run));
      RunCounts(c, Before(run));
    }
  }

  /** Handlers are dispatched from connect to teardown, and give up at the first disconnect beyond the limit. */
  lemma GivesUpIff(c: Config, run: seq<Event>)
    requires Run(c, run)
    ensures
      var w := After(c, run);
      && (w.registered <==> Dispatching(c, run))
      && (w.tearing <==> Dispatching(c, run) && Drops(c, run) > c.maxRetry && Drops(c, run) > 0)
  {
    hide Run, After, Drops, Dispatching, GotIps, Connects;
    RunCounts(c, run);
    RunDispatches(c, run);
  }

  // ----------------------------------------------------------------------------- the way past the semaphores

  /** Before they are taken, semaphores are full exactly after an own address event, or after giving up. */
  ghost predicate Filled(c: Config, run: seq<Event>)
    requires Run(c, run)
  {
    var w := After(c, run);
    && (w.registered && w.waiter in {Connecting(true), TakingIp} ==>
          (w.ip == Live(true) <==> w.tearing || Seen(c, run, GotIp(true))))
    && (c.ipv6 && w.registered && w.waiter in {Connecting(true), TakingIp, TakingIp6} ==>
          (w.ip6 == Live(true) <==> w.tearing || Seen(c, run, GotIp6(true, true))))
  }

  lemma {:induction false} RunFills(c: Config, run: seq<Event>)
    requires Run(c, run)
    ensures Filled(c, run)
    decreases |run|
  {
    if run != [] {
      RunFills(c, Before(run));
      RunAllocates(c, Before(run));
    }
  }

  /** A waiting caller gets past a semaphore exactly when its address has come, or the station has given up. */
  lemma TakesIff(c: Config, run: seq<Event>)
    requires Run(c, run)
    ensures
      var w := After(c, run);
      && (Enabled(c, w, TakeIp) <==>
            w.waiter == TakingIp && Dispatching(c, run) && (w.tearing || Seen(c, run, GotIp(true))))
      && (Enabled(c, w, TakeIp6) <==>
            w.waiter == TakingIp6 && Dispatching(c, run) && (w.tearing || Seen(c, run, GotIp6(true, true))))
  {
    hide Run, After, Dispatching, Seen, Waits, Created, Created6;
    RunFills(c, run);
    RunAllocates(c, run);
    GivesUpIff(c, run);
  }

  function StepsOut(waiter: Waiter): nat {
    match waiter
    case Connecting(_) => 4
    case TakingIp => 3
    case TakingIp6 => 2
    case Checking => 1
    case _ => 0
  }

  predicate StillWaiting(waiter: Waiter) {
    waiter == Connecting(true) || waiter.TakingIp? || waiter.TakingIp6? || waiter.Checking?
  }

  /** The step that a released caller takes next. */
  function NextOut(waiter: Waiter): Event {
    match waiter
    case Connecting(_) => Call(true)
    case TakingIp => TakeIp
    case TakingIp6 => TakeIp6
    case _ => Check
  }

  /** Every configured address has come to the connect underway, or the station has given up. */
  predicate Released(c: Config, run: seq<Event>) {
    && Dispatching(c, run)
    && (|| (Drops(c, run) > c.maxRetry && Drops(c, run) > 0)
        || ((c.ipv4 ==> Seen(c, run, GotIp(true))) && (c.ipv6 ==> Seen(c, run, GotIp6(true, true)))))
  }

  /** The caller's steps change nothing that the handlers did. */
  lemma CallerStepsAside(c: Config, run: seq<Event>, e: Event)
    requires OfCaller(e) && !e.Begin?
    ensures Drops(c, run + [e]) == Drops(c, run) && Dispatching(c, run + [e]) == Dispatching(c, run)
    ensures Seen(c, run + [e], GotIp(true)) == Seen(c, run, GotIp(true))
    ensures Seen(c, run + [e], GotIp6(true, true)) == Seen(c, run, GotIp6(true, true))
  {
    assert Before(run + [e]) == run;
  }

  lemma OneStepOut(c: Config, run: seq<Event>) returns (next: seq<Event>)
    requires Run(c, run) && Released(c, run) && StillWaiting(After(c, run).waiter)
    ensures next == run + [NextOut(After(c, run).waiter)] && Run(c, next)
    ensures Released(c, next) && Drops(c, next) == Drops(c, run)
    ensures
      var w, after := After(c, run), After(c, next);
      && StepsOut(after.waiter) < StepsOut(w.waiter)
      && (if w.waiter.Checking? then after.waiter == Returned(if Drops(c, run) > c.maxRetry then Fail else Ok)
          else StillWaiting(after.waiter))
  {
    hide Run, After, Before, Drops, Dispatching, Seen, Waits, Created, Created6, GotIps, Connects;
    GivesUpIff(c, run);
    TakesIff(c, run);
    RunCounts(c, run);
    RunAllocates(c, run);
    CallerStepsAside(c, run, NextOut(After(c, run).waiter));
    next := RunOn(c, run, NextOut(After(c, run).waiter));
  }

  /**
   A released caller can run on to its result by its own steps: `ESP_OK` when the disconnects since the last
   reset are within the limit, so after every configured address has come, and otherwise `ESP_FAIL`.
   */
  lemma {:induction false} ReleasedCallerReturns(c: Config, run: seq<Event>) returns (more: seq<Event>)
    requires Run(c, run) && Released(c, run) && StillWaiting(After(c, run).waiter)
    ensures forall e | e in more :: e.Call? || e.TakeIp? || e.TakeIp6? || e.Check?
    ensures Run(c, run + more)
    ensures After(c, run + more).waiter == Returned(if Drops(c, run) > c.maxRetry then Fail else Ok)
    decreases StepsOut(After(c, run).waiter)
  {
    hide Run, After, StillWaiting, StepsOut, Released, Drops;
    var e := NextOut(After(c, run).waiter);
    var next := OneStepOut(c, run);
    more := [e];
    if !After(c, run).waiter.Checking? {
      var rest := ReleasedCallerReturns(c, next);
      more := [e] + rest;
      assert run + more == next + rest;
    }
  }

  /** When every configured address has come, and the disconnects are within the limit, the result is `ESP_OK`. */
  lemma AddressesReleaseTheCaller(c: Config, run: seq<Event>) returns (more: seq<Event>)
    requires Run(c, run) && Dispatching(c, run) && StillWaiting(After(c, run).waiter)
    requires c.ipv4 ==> Seen(c, run, GotIp(true))
    requires c.ipv6 ==> Seen(c, run, GotIp6(true, true))
    requires Drops(c, run) <= c.maxRetry
    ensures forall e | e in more :: e.Call? || e.TakeIp? || e.TakeIp6? || e.Check?
    ensures Run(c, run + more) && After(c, run + more).waiter == Returned(Ok)
  {
    more := ReleasedCallerReturns(c, run);
  }

  /** A handler that has given up has released the caller: before the teardown it can run on to `ESP_FAIL`. */
  lemma GivingUpReleasesTheCaller(c: Config, run: seq<Event>) returns (more: seq<Event>)
    requires Run(c, run) && After(c, run).tearing && StillWaiting(After(c, run).waiter)
    ensures forall e | e in more :: e.Call? || e.TakeIp? || e.TakeIp6? || e.Check?
    ensures Run(c, run + more) && After(c, run + more).waiter == Returned(Fail)
  {
    hide Run, After, Drops, Dispatching, Seen;
    GivesUpIff(c, run);
    more := ReleasedCallerReturns(c, run);
  }

  // ------------------------------------------------------------------------------------------- the results

  /** Where the connecting task is, from its own last step and what the schedule told until then. */
  ghost predicate Accounted(c: Config, part: seq<Event>, waiter: Waiter) {
    if part == [] then waiter == Outside
    else
      var e := Last(part);
      && (waiter == Returned(NoMemory) <==> e.Begin? && !Registers(c, e.start))
      && (waiter == Returned(ConnectError) <==> e == Call(false))
      && (waiter == Returned(Fail) <==> e == Check && Drops(c, part) > c.maxRetry)
      && (waiter == Returned(Ok) <==>
            (e == Check && Drops(c, part) <= c.maxRetry) || (e == Call(true) && !Waits(c, part)))
      && (waiter.Connecting? <==> e.Begin? && Registers(c, e.start))
      && (waiter == TakingIp <==> e == Call(true) && Waits(c, part) && c.ipv4)
      && (waiter == TakingIp6 <==>
            c.ipv6 && (e == TakeIp || (e == Call(true) && Waits(c, part) && !c.ipv4)))
      && waiter != Outside
  }

  /** A step of the connecting task says where it now is. */
  lemma CallerStepAccounted(c: Config, w: Wifi, part: seq<Event>, e: Event)
    requires Enabled(c, w, e) && OfCaller(e) && part != [] && Last(part) == e
    requires w.waiter.Connecting? ==> w.waiter.wait == Waits(c, part)
    requires e == Check ==> w.retryNum == Drops(c, part)
    requires w.waiter == TakingIp6 ==> c.ipv6
    ensures Accounted(c, part, Step(c, w, e).waiter)
  {
    hide Waits, Drops, Last;
    match e
    case Begin(start) =>
    case Call(connected) =>
    case TakeIp =>
    case TakeIp6 =>
    case Check =>
  }

  lemma BeforeCallerStep(c: Config, run: seq<Event>)
    requires Run(c, run) && run != [] && OfCaller(Last(run))
    ensures
      var w, e := After(c, Before(run)), Last(run);
      && Run(c, Before(run)) && Enabled(c, w, e) && After(c, run) == Step(c, w, e)
      && (w.waiter.Connecting? ==> w.waiter.wait == Waits(c, run))
      && (e == Check ==> w.retryNum == Drops(c, run))
      && (w.waiter == TakingIp6 ==> c.ipv6)
  {
    hide Created, Created6, GotIps, Connects;
    RunAllocates(c, Before(run));
    RunCounts(c, Before(run));
  }

  /**
   The result of a connect: no memory exactly when a semaphore it asked for was not to be had, an error
   exactly when its call failed, failure exactly at a check after too many disconnects, and success at any
   other check, or right after the call of a connect that does not wait.
   */
  lemma {:induction false} ResultsAccounted(c: Config, run: seq<Event>)
    requires Run(c, run)
    ensures Accounted(c, CallerPart(run), After(c, run).waiter)
    decreases |run|
  {
    if run == [] {
    } else if OfCaller(Last(run)) {
      hide Accounted, Step, Enabled;
      BeforeCallerStep(c, run);
      CallerStepAccounted(c, After(c, Before(run)), run, Last(run));
    } else {
      hide Accounted;
      ResultsAccounted(c, Before(run));
    }
  }

  /** What an address event adds to a schedule. */
  lemma AddressCame(c: Config, run: seq<Event>, e: Event)
    requires e.GotIp? || e.GotIp6?
    ensures Seen(c, run + [e], e) && (forall d | Seen(c, run, d) :: Seen(c, run + [e], d))
    ensures Waits(c, run + [e]) == Waits(c, run) && Dispatching(c, run + [e]) == Dispatching(c, run)
    ensures Drops(c, run) == 0 ==> Drops(c, run + [e]) == 0
  {
    assert Before(run + [e]) == run;
  }

  /** A connect that waits, and every address of its own. */
  lemma AddressesCome(c: Config) returns (run: seq<Event>)
    ensures Run(c, run) && Waits(c, run) && Dispatching(c, run) && StillWaiting(After(c, run).waiter)
    ensures Drops(c, run) == 0
    ensures c.ipv4 ==> Seen(c, run, GotIp(true))
    ensures c.ipv6 ==> Seen(c, run, GotIp6(true, true))
  {
    run := [Begin(Start(true, true, true))];
    assert Before(run) == [];
    assert Run(c, run) && Waits(c, run) && Dispatching(c, run) && Drops(c, run) == 0;
    hide Run, After, Waits, Dispatching, Drops, Seen;
    AddressCame(c, run, GotIp(true));
    run := RunOn(c, run, GotIp(true));
    if c.ipv6 {
      AddressCame(c, run, GotIp6(true, true));
      run := RunOn(c, run, GotIp6(true, true));
    }
  }

  lemma {:induction false} CallerStepsKeepWaits(c: Config, run: seq<Event>, more: seq<Event>)
    requires forall e | e in more :: !e.Begin?
    ensures Waits(c, run + more) == Waits(c, run)
    decreases |more|
  {
    if more == [] {
      assert run + more == run;
    } else {
      assert Before(run + more) == run + Before(more);
      CallerStepsKeepWaits(c, run, Before(more));
    }
  }

  /** While its caller has returned from a call that did not wait, the connect is one that does not. */
  lemma {:induction false} WaitsSinceCall(c: Config, run: seq<Event>)
    requires Run(c, run)
    ensures After(c, run).waiter.Returned? && Waits(c, run) ==>
              CallerPart(run) != [] && (Last(CallerPart(run)) == Call(true) ==> Waits(c, CallerPart(run)))
    decreases |run|
  {
    if run != [] {
      WaitsSinceCall(c, Before(run));
    }
  }

  lemma NoSuccessBelowZero(c: Config, run: seq<Event>)
    requires Run(c, run) && Waits(c, run) && c.maxRetry < 0
    ensures After(c, run).waiter != Returned(Ok)
  {
    hide Run, After, Waits, Drops, CallerPart;
    ResultsAccounted(c, run);
    WaitsSinceCall(c, run);
  }

  /** A connect that waits can return `ESP_OK` in some schedule, unless the limit of the build is negative. */
  lemma ConnectCanSucceedIff(c: Config)
    ensures
      (exists run :: Run(c, run) && Waits(c, run) && After(c, run).waiter == Returned(Ok)) <==> c.maxRetry >= 0
  {
    hide Run, After, Waits, Dispatching, Seen, Drops, StillWaiting;
    if c.maxRetry >= 0 {
      var run := AddressesCome(c);
      var more := AddressesReleaseTheCaller(c, run);
      CallerStepsKeepWaits(c, run, more);
      assert Run(c, run + more) && Waits(c, run + more) && After(c, run + more).waiter == Returned(Ok);
    } else {
      forall run | Run(c, run) && Waits(c, run) ensures After(c, run).waiter != Returned(Ok) {
        NoSuccessBelowZero(c, run);
      }
    }
  }
}
