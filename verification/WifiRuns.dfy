/** The bound on reconnecting, and what a waiting caller may conclude from its result. */
module WifiRuns {
  import opened WifiSpec

  /** Retries allowed between two resets of the counter. */
  function Allowed(c: Config): nat {
    if c.maxRetry < 0 then 0 else c.maxRetry
  }

  /** `n` times the retries allowed. */
  function Budget(c: Config, n: nat): nat {
    if n == 0 then 0 else Budget(c, n - 1) + Allowed(c)
  }

  /** The caller's own call of `esp_wifi_connect` is still to come. */
  function ToCome(w: Wifi): nat {
    if w.waiter.Connecting? then 1 else 0
  }

  /** The counter, the registration, and the calls of `esp_wifi_connect`. */
  ghost predicate Counted(c: Config, run: seq<Event>)
    requires Run(c, run)
  {
    var w, drops, connects := After(c, run), Drops(c, run), Connects(c, run);
    && w.retryNum == drops <= Allowed(c) + 1
    && (w.tearing ==> w.registered && drops > c.maxRetry)
    && (w.registered && !w.tearing ==> drops == 0 || drops <= c.maxRetry)
    && (if connects == 0 then
          !w.registered && !w.waiter.Connecting? && w.connects == 0
        else
          w.connects + ToCome(w) <=
          connects + Budget(c, GotIps(run) + connects - 1) + (if drops < Allowed(c) then drops else Allowed(c)))
    && (connects == 0 ==> GotIps(run) == 0)
  }

  lemma {:induction false} RunCounts(c: Config, run: seq<Event>)
    requires Run(c, run)
    ensures Counted(c, run)
    decreases |run|
  {
    if run != [] {
      RunCounts(c, Before(run));
    }
  }

  /** Each semaphore is null, alive or deleted as the connects of the schedule left it. */
  ghost predicate Allocated(c: Config, run: seq<Event>)
    requires Run(c, run)
  {
    var w := After(c, run);
    && (w.ip == Null <==> !Created(run))
    && (w.ip.Live? <==> w.registered && Waits(c, run))
    && (if !c.ipv6 then w.ip6 == Null
        else (w.ip6 == Null <==> !Created6(run)) && (w.ip6.Live? <==> w.registered && Waits(c, run)))
    && (w.tearing ==> w.registered)
    && (w.waiter.Connecting? ==> w.waiter.wait == Waits(c, run))
    && (w.waiter in {TakingIp, TakingIp6, Checking} ==> Waits(c, run))
    && (w.waiter == TakingIp ==> c.ipv4)
    && (w.waiter == TakingIp6 ==> c.ipv6)
  }

  lemma {:induction false} RunAllocates(c: Config, run: seq<Event>)
    requires Run(c, run)
    ensures Allocated(c, run)
    decreases |run|
  {
    if run != [] {
      RunAllocates(c, Before(run));
    }
  }

  /** The condition holds, or the station has given up. */
  ghost predicate OrGivenUp(c: Config, run: seq<Event>, told: bool) {
    told || Drops(c, run) > c.maxRetry
  }

  /** A semaphore that is full, or has been taken, tells of an address; otherwise the station has given up. */
  ghost predicate Told(c: Config, run: seq<Event>)
    requires Run(c, run)
  {
    var w := After(c, run);
    && (w.ip == Live(true) ==> OrGivenUp(c, run, Seen(c, run, GotIp(true))))
    && (w.ip6 == Live(true) ==> OrGivenUp(c, run, Seen(c, run, GotIp6(true, true))))
    && (w.waiter in {TakingIp6, Checking} && c.ipv4 ==> OrGivenUp(c, run, Seen(c, run, GotIp(true))))
    && (w.waiter == Checking && c.ipv6 ==> OrGivenUp(c, run, Seen(c, run, GotIp6(true, true))))
  }

  lemma {:induction false} RunTells(c: Config, run: seq<Event>)
    requires Run(c, run)
    ensures Told(c, run)
    decreases |run|
  {
    if run != [] {
      RunTells(c, Before(run));
      RunCounts(c, Before(run));
      RunAllocates(c, Before(run));
    }
  }

  /** One more event of a schedule. */
  lemma RunOn(c: Config, run: seq<Event>, e: Event) returns (more: seq<Event>)
    requires Run(c, run) && Enabled(c, After(c, run), e)
    ensures more == run + [e] && Before(more) == run && Run(c, more) && After(c, more) == Step(c, After(c, run), e)
  {
    more := run + [e];
    assert Before(more) == run;
  }

  // ----------------------------------------------------------------------------------- the retry bound

  lemma {:induction false} BudgetIsProduct(c: Config, n: nat)
    ensures Budget(c, n) == n * Allowed(c)
  {
    if n > 0 {
      BudgetIsProduct(c, n - 1);
    }
  }

  /**
   The counter never passes the limit by more than one, and the station calls `esp_wifi_connect` once for
   each connect, and at most as often as retries are allowed after each connect and each got-IP event.
   */
  lemma RetryBound(c: Config, run: seq<Event>)
    requires Run(c, run)
    ensures
      var w := After(c, run);
      && w.retryNum <= Allowed(c) + 1
      && w.connects <= Connects(c, run) + (GotIps(run) + Connects(c, run)) * Allowed(c)
      && (Connects(c, run) <= 1 && GotIps(run) == 0 ==> w.connects <= Allowed(c) + 1)
  {
    RunCounts(c, run);
    hide Run, After, Drops, GotIps, Connects;
    BudgetIsProduct(c, GotIps(run) + Connects(c, run));
  }

  /** A handler has given up exactly when more disconnects than allowed have come since the counter's last reset. */
  lemma DroppedSoOften(c: Config, run: seq<Event>)
    requires Run(c, run) && run != [] && Last(run).Disconnected?
    ensures After(c, run).tearing <==> Drops(c, run) > c.maxRetry
    ensures Drops(c, run) > 0
  {
    RunCounts(c, run);
  }

  /** The bound is reached: a network that drops the station as often as allowed makes it connect that often. */
  lemma {:induction false} RetryBoundIsReached(c: Config, start: Start, n: nat) returns (run: seq<Event>)
    requires Registers(c, start) && n <= Allowed(c)
    ensures Run(c, run) && GotIps(run) == 0 && Connects(c, run) == 1 && Drops(c, run) == n
    ensures
      var w := After(c, run);
      w.retryNum == n && w.connects == n + 1 && w.registered && !w.tearing
    decreases n
  {
    if n > 0 {
      run := RetryBoundIsReached(c, start, n - 1);
      run := RunOn(c, run, Disconnected(false));
    } else {
      run := RunOn(c, [], Begin(start));
      assert Connects(c, run) == 1 && GotIps(run) == 0 && Drops(c, run) == 0;
      run := RunOn(c, run, Call(true));
    }
  }

  /**
   Having given up, the station counts no more, and until the next connect it calls `esp_wifi_connect` no
   more, except for a call that the connecting task had still to make.
   */
  lemma {:induction false} GivenUpForGood(c: Config, run: seq<Event>, more: seq<Event>)
    requires Run(c, run + more) && Run(c, run)
    requires Drops(c, run) > c.maxRetry && Drops(c, run) > 0
    requires forall e | e in more :: !e.Begin?
    ensures Drops(c, run + more) == Drops(c, run)
    ensures
      var w, next := After(c, run), After(c, run + more);
      next.connects + ToCome(next) == w.connects + ToCome(w)
    decreases |more|
  {
    if more == [] {
      assert run + more == run;
    } else {
      assert Before(run + more) == run + Before(more);
      GivenUpForGood(c, run, Before(more));
      RunCounts(c, run + Before(more));
    }
  }

  // ------------------------------------------------------------------------------- the caller's result

  function Disconnects(run: seq<Event>): nat
    decreases |run|
  {
    if run == [] then 0 else Disconnects(Before(run)) + (if Last(run).Disconnected? then 1 else 0)
  }

  /** `run[k..]` follows the last got-IP event or registering connect of the schedule. */
  predicate SinceReset(c: Config, run: seq<Event>, k: nat) {
    && k <= |run| && (k == 0 || run[k - 1].GotIp? || Registering(c, run[k - 1]))
    && forall i | k <= i < |run| :: !run[i].GotIp? && !Registering(c, run[i])
  }

  lemma DisconnectsExtend(run: seq<Event>, k: nat)
    requires run != [] && k <= |run| - 1
    ensures Disconnects(run[k..]) == Disconnects(Before(run)[k..]) + (if Last(run).Disconnected? then 1 else 0)
  {
    assert Before(run[k..]) == Before(run)[k..] && Last(run[k..]) == Last(run);
  }

  /** What `Drops` counts: the disconnects in that part of the schedule. */
  lemma {:induction false} DropsMeaning(c: Config, run: seq<Event>) returns (k: nat)
    ensures SinceReset(c, run, k)
    ensures Disconnects(run[k..]) == Drops(c, run)
    decreases |run|
  {
    hide Registering, Disconnects;
    k := |run|;
    if run != [] && !Last(run).GotIp? && !Registering(c, Last(run)) {
      k := DropsMeaning(c, Before(run));
      DisconnectsExtend(run, k);
    } else {
      NoDisconnects(run);
    }
  }

  lemma NoDisconnects(run: seq<Event>)
    ensures Disconnects(run[|run|..]) == 0
  {
  }

  /**
   A caller that waited gets `ESP_FAIL` exactly when more disconnects than allowed have come since the last
   got-IP event, and `ESP_OK` only after an address event of its own interface for each configured family.
   */
  lemma WaiterResult(c: Config, run: seq<Event>)
    requires Run(c, run) && Enabled(c, After(c, run), Check)
    ensures
      var result := Step(c, After(c, run), Check).waiter;
      && result in {Returned(Ok), Returned(Fail)}
      && (result == Returned(Fail) <==> Drops(c, run) > c.maxRetry)
      && (result == Returned(Fail) && c.maxRetry >= 0 ==> Drops(c, run) == c.maxRetry + 1)
      && (result == Returned(Ok) ==>
            && (c.ipv4 ==> Seen(c, run, GotIp(true)))
            && (c.ipv6 ==> Seen(c, run, GotIp6(true, true))))
  {
    hide Run, After, Drops, Seen;
    RunCounts(c, run);
    RunTells(c, run);
  }

  // ---------------------------------------------------------------------------- semaphores in their time

  /**
   A handler meets a deleted semaphore exactly when the connect it serves does not wait, and the last one
   that did left the pointer behind. So it never does during a connect that waits, or the first one.
   */
  lemma HandlersMeetDeleted(c: Config, run: seq<Event>)
    requires Run(c, run) && After(c, run).registered
    ensures
      var w := After(c, run);
      && (w.ip == Deleted <==> !Waits(c, run) && Created(run))
      && (w.ip6 == Deleted <==> c.ipv6 && !Waits(c, run) && Created6(run))
  {
    RunAllocates(c, run);
  }

  /** Such a schedule: a connect that waits fails and is torn down, and a later one that does not wait is dropped. */
  lemma DeletedIsMet(c: Config) returns (run: seq<Event>)
    requires c.maxRetry <= 0
    ensures Run(c, run) && Enabled(c, After(c, run), Disconnected(false)) && After(c, run).ip == Deleted
  {
    run := RunOn(c, [], Begin(Start(true, true, true)));
    run := RunOn(c, run, Call(false));
    run := RunOn(c, run, Disconnected(false));
    run := RunOn(c, run, TearDown);
    run := RunOn(c, run, Begin(Start(false, true, true)));
  }
}
