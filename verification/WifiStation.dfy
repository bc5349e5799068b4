/** The station's handlers and its connect call, working on their static variables in place. */
module WifiStation {
  import opened WifiSpec
  import opened WifiRuns
  import opened WifiOutcomes

  /** What `esp_wifi_connect` returns. */
  datatype ConnectResult = Connected | NotStarted | OtherError

  class Station {
    const config: Config
    var retryNum: nat
    var semphGetIpAddrs: Semaphore
    var semphGetIp6Addrs: Semaphore
    var registered: bool
    var tearing: bool
    var waiter: Waiter
    ghost var connects: nat

    /** The schedule that led here. */
    ghost var history: seq<Event>

    ghost function View(): Wifi
      reads this
    {
      Wifi(retryNum, semphGetIpAddrs, semphGetIp6Addrs, registered, tearing, waiter, connects)
    }

    ghost predicate Valid()
      reads this
    {
      Run(config, history) && View() == After(config, history)
    }

    /** The handler for `e` may run, and has run. */
    ghost predicate CanRun(e: Event)
      reads this
    {
      Valid() && Enabled(config, View(), e)
    }

    constructor (config: Config)
      ensures this.config == config && Valid() && history == []
    {
      this.config := config;
      retryNum, connects := 0, 0;
      semphGetIpAddrs, semphGetIp6Addrs := Null, Null;
      registered, tearing := false, false;
      waiter := Outside;
      history := [];
    }

    /** `example_wifi_sta_do_connect` up to its call of `esp_wifi_connect`. */
    method StaDoConnect(start: Start)
      requires CanRun(Begin(start))
      modifies this
      ensures Valid() && history == old(history) + [Begin(start)]
      ensures View() == DoConnect(config, old(View()), start)
    {
      history := RunOn(config, history, Begin(start));
      if start.wait {
        semphGetIpAddrs := if start.gotIpSemaphore then Live(false) else Null;
        if semphGetIpAddrs == Null {
          waiter := Returned(NoMemory);
          return;
        }
        if config.ipv6 {
          semphGetIp6Addrs := if start.gotIp6Semaphore then Live(false) else Null;
          if semphGetIp6Addrs == Null {
            semphGetIpAddrs := Deleted;
            waiter := Returned(NoMemory);
            return;
          }
        }
      }
      retryNum := 0;
      registered := true;
      waiter := Connecting(start.wait);
    }

    /** The call, and the way to the first wait. */
    method StaCallConnect(connected: bool)
      requires CanRun(Call(connected))
      modifies this
      ensures Valid() && history == old(history) + [Call(connected)]
      ensures View() == DoCall(config, old(View()), connected)
      ensures connects <= Connects(config, history) + (GotIps(history) + Connects(config, history)) * Allowed(config)
      ensures connects == Calls(history) + Reconnects(config, history)
    {
      history := RunOn(config, history, Call(connected));
      RetryBound(config, history);
      ConnectsExactly(config, history);
      hide Run, After, Connects, GotIps, Calls, Reconnects;
      connects := connects + 1;
      if !connected {
        waiter := Returned(ConnectError);
      } else if waiter.wait {
        waiter := if config.ipv4 then TakingIp else AfterIp(config);
      } else {
        waiter := Returned(Ok);
      }
    }

    /**
     `result` is what `esp_wifi_connect` returns if it is called. An error other than "not started" aborts
     the program. The calls stay within the bound of the schedule.
     */
    method HandlerOnWifiDisconnect(roaming: bool, result: ConnectResult) returns (aborted: bool)
      requires CanRun(Disconnected(roaming)) && semphGetIpAddrs != Deleted && semphGetIp6Addrs != Deleted
      modifies this
      ensures Valid() && history == old(history) + [Disconnected(roaming)]
      ensures View() == OnDisconnect(config, old(View()), roaming)
      ensures aborted <==> old(retryNum) < config.maxRetry && !roaming && result == OtherError
      ensures tearing <==> Drops(config, history) > config.maxRetry
      ensures connects <= Connects(config, history) + (GotIps(history) + Connects(config, history)) * Allowed(config)
      ensures connects == Calls(history) + Reconnects(config, history)
      ensures Connects(config, history) == 1 && GotIps(history) == 0 ==> connects <= Allowed(config) + 1
    {
      history := RunOn(config, history, Disconnected(roaming));
      DroppedSoOften(config, history);
      RetryBound(config, history);
      ConnectsExactly(config, history);
      hide Run, After, Drops, Connects, GotIps, Calls, Reconnects;
      aborted := false;
      retryNum := retryNum + 1;
      if retryNum > config.maxRetry {
        if semphGetIpAddrs != Null {
          semphGetIpAddrs := Live(true);
        }
        if config.ipv6 {
          if semphGetIp6Addrs != Null {
            semphGetIp6Addrs := Live(true);
          }
        }
        tearing := true;
      } else if !roaming {
        connects := connects + 1;
        if result == NotStarted {
          // The station was stopped; nothing to do.
        } else {
          aborted := result != Connected;
        }
      }
    }

    /** `example_wifi_sta_do_disconnect`, called when giving up; the pointers keep pointing at what was deleted. */
    method StaDoDisconnect()
      requires CanRun(TearDown)
      modifies this
      ensures Valid() && history == old(history) + [TearDown]
      ensures View() == DoDisconnect(config, old(View()))
    {
      history := RunOn(config, history, TearDown);
      registered := false;
      tearing := false;
      if semphGetIpAddrs != Null {
        semphGetIpAddrs := Deleted;
      }
      if config.ipv6 {
        if semphGetIp6Addrs != Null {
          semphGetIp6Addrs := Deleted;
        }
      }
    }

    method HandlerOnStaGotIp(ours: bool)
      requires CanRun(GotIp(ours)) && semphGetIpAddrs != Deleted
      modifies this
      ensures Valid() && history == old(history) + [GotIp(ours)]
      ensures View() == OnGotIp(old(View()), ours)
      ensures ours && waiter == TakingIp ==> Enabled(config, View(), TakeIp)
    {
      history := RunOn(config, history, GotIp(ours));
      RunAllocates(config, history);
      hide Run, After;
      retryNum := 0;
      if ours {
        if semphGetIpAddrs != Null {
          semphGetIpAddrs := Live(true);
        }
      }
    }

    method HandlerOnStaGotIp6(ours: bool, preferred: bool)
      requires CanRun(GotIp6(ours, preferred)) && semphGetIp6Addrs != Deleted
      modifies this
      ensures Valid() && history == old(history) + [GotIp6(ours, preferred)]
      ensures View() == OnGotIp6(old(View()), ours, preferred)
      ensures ours && preferred && waiter == TakingIp6 ==> Enabled(config, View(), TakeIp6)
    {
      history := RunOn(config, history, GotIp6(ours, preferred));
      RunAllocates(config, history);
      hide Run, After;
      if ours {
        if preferred {
          if semphGetIp6Addrs != Null {
            semphGetIp6Addrs := Live(true);
          }
        }
      }
    }

    /** The first `xSemaphoreTake` returns. */
    method TakeIpAddrs()
      requires CanRun(TakeIp)
      modifies this
      ensures Valid() && history == old(history) + [TakeIp]
      ensures View() == Step(config, old(View()), TakeIp)
      ensures old(semphGetIpAddrs) == Live(true) && semphGetIpAddrs == Live(false)
    {
      history := RunOn(config, history, TakeIp);
      semphGetIpAddrs := Live(false);
      waiter := if config.ipv6 then TakingIp6 else Checking;
    }

    /** The second one returns. */
    method TakeIp6Addrs()
      requires CanRun(TakeIp6)
      modifies this
      ensures Valid() && history == old(history) + [TakeIp6]
      ensures View() == Step(config, old(View()), TakeIp6)
      ensures old(semphGetIp6Addrs) == Live(true) && semphGetIp6Addrs == Live(false)
    {
      history := RunOn(config, history, TakeIp6);
      semphGetIp6Addrs := Live(false);
      waiter := Checking;
    }

    /** The end of `example_wifi_sta_do_connect`, with what its result tells about the schedule. */
    method CheckRetries() returns (result: Result)
      requires CanRun(Check)
      modifies this
      ensures Valid() && history == old(history) + [Check]
      ensures waiter == Returned(result)
      ensures View() == old(View()).(waiter := waiter)
      ensures result == Ok || result == Fail
      ensures result == Fail <==> Drops(config, old(history)) > config.maxRetry
      ensures result == Ok ==>
                && (config.ipv4 ==> Seen(config, old(history), GotIp(true)))
                && (config.ipv6 ==> Seen(config, old(history), GotIp6(true, true)))
    {
      WaiterResult(config, history);
      RunCounts(config, history);
      history := RunOn(config, history, Check);
      result := if retryNum > config.maxRetry then Fail else Ok;
      waiter := Returned(result);
    }
  }
}
