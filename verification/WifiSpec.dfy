/**
 The Wi-Fi station's retry and give-up logic: event handlers run one at a time in the event task, while
 a task that called `example_wifi_sta_do_connect` makes its calls and waits on two binary semaphores.
 */
module WifiSpec {

  /** The build's `CONFIG_EXAMPLE_WIFI_CONN_MAX_RETRY`, which Kconfig does not bound, and address families. */
  datatype Config = Config(maxRetry: int, ipv4: bool, ipv6: bool)

  /** The null pointer, a live binary semaphore, or a pointer to a deleted one. */
  datatype Semaphore = Null | Live(full: bool) | Deleted

  datatype Result = Ok | Fail | NoMemory | ConnectError

  /** Where the calling task is: about to call `esp_wifi_connect`, at one of its takes, or out of the function. */
  datatype Waiter = Outside | Connecting(wait: bool) | TakingIp | TakingIp6 | Checking | Returned(result: Result)

  /**
   `registered`: the handlers will see events. `tearing`: the disconnect handler has given up and is about
   to call `example_wifi_sta_do_disconnect`. `connects` counts the calls of `esp_wifi_connect`.
   */
  datatype Wifi = Wifi(
    retryNum: nat,
    ip: Semaphore,
    ip6: Semaphore,
    registered: bool,
    tearing: bool,
    waiter: Waiter,
    connects: nat)

  /** The argument of a connect, and which of the semaphores it asks for it gets. */
  datatype Start = Start(wait: bool, gotIpSemaphore: bool, gotIp6Semaphore: bool)

  datatype Event =
    | Begin(start: Start)
    | Call(connected: bool)
    | Disconnected(roaming: bool)
    | TearDown
    | GotIp(ours: bool)
    | GotIp6(ours: bool, preferred: bool)
    | TakeIp
    | TakeIp6
    | Check

  const FRESH: Wifi := Wifi(0, Null, Null, false, false, Outside, 0)

  /** `if (s) xSemaphoreGive(s);` */
  function Give(s: Semaphore): Semaphore {
    if s.Live? then Live(true) else s
  }

  function Delete(s: Semaphore): Semaphore {
    if s == Null then s else Deleted
  }

  /** The connect gets its semaphores and goes on to register the handlers. */
  predicate Registers(c: Config, start: Start) {
    start.wait ==> start.gotIpSemaphore && (c.ipv6 ==> start.gotIp6Semaphore)
  }

  /** `example_wifi_sta_do_connect` up to its call of `esp_wifi_connect`. */
  function DoConnect(c: Config, w: Wifi, start: Start): Wifi {
    if start.wait && !start.gotIpSemaphore then
      w.(ip := Null, waiter := Returned(NoMemory))
    else if start.wait && c.ipv6 && !start.gotIp6Semaphore then
      w.(ip := Deleted, ip6 := Null, waiter := Returned(NoMemory))
    else
      w.(retryNum := 0,
         ip := if start.wait then Live(false) else w.ip,
         ip6 := if start.wait && c.ipv6 then Live(false) else w.ip6,
         registered := true,
         waiter := Connecting(start.wait))
  }

  /** That call, and what follows it. */
  function DoCall(c: Config, w: Wifi, connected: bool): Wifi
    requires w.waiter.Connecting?
  {
    w.(connects := w.connects + 1,
       waiter :=
         if !connected then Returned(ConnectError)
         else if !w.waiter.wait then Returned(Ok)
         else if c.ipv4 then TakingIp
         else AfterIp(c))
  }

  function AfterIp(c: Config): Waiter {
    if c.ipv6 then TakingIp6 else Checking
  }

  /**
   Handlers are dispatched while registered, one at a time, the one for IPv6 in builds with IPv6; a take
   waits for a full semaphore; a connect is begun when the one before it has returned and was torn down.
   */
  predicate Enabled(c: Config, w: Wifi, e: Event) {
    match e
    case Begin(_) => !w.registered && (w.waiter == Outside || w.waiter.Returned?)
    case Call(_) => w.waiter.Connecting?
    case Disconnected(_) => w.registered && !w.tearing
    case TearDown => w.tearing
    case GotIp(_) => w.registered && !w.tearing
    case GotIp6(_, _) => w.registered && !w.tearing && c.ipv6
    case TakeIp => w.waiter == TakingIp && w.ip == Live(true)
    case TakeIp6 => w.waiter == TakingIp6 && w.ip6 == Live(true)
    case Check => w.waiter == Checking
  }

  /** `example_handler_on_wifi_disconnect`, up to the teardown. */
  function OnDisconnect(c: Config, w: Wifi, roaming: bool): Wifi {
    var counted := w.(retryNum := w.retryNum + 1);
    if counted.retryNum > c.maxRetry then
      counted.(ip := Give(w.ip), ip6 := if c.ipv6 then Give(w.ip6) else w.ip6, tearing := true)
    else if roaming then
      counted
    else
      counted.(connects := w.connects + 1)
  }

  /** `example_wifi_sta_do_disconnect` */
  function DoDisconnect(c: Config, w: Wifi): Wifi {
    w.(registered := false, tearing := false, ip := Delete(w.ip), ip6 := if c.ipv6 then Delete(w.ip6) else w.ip6)
  }

  /** `example_handler_on_sta_got_ip` resets the counter before it looks whose address it is. */
  function OnGotIp(w: Wifi, ours: bool): Wifi {
    w.(retryNum := 0, ip := if ours then Give(w.ip) else w.ip)
  }

  /** `example_handler_on_sta_got_ipv6` */
  function OnGotIp6(w: Wifi, ours: bool, preferred: bool): Wifi {
    w.(ip6 := if ours && preferred then Give(w.ip6) else w.ip6)
  }

  function Step(c: Config, w: Wifi, e: Event): Wifi
    requires Enabled(c, w, e)
  {
    match e
    case Begin(start) => DoConnect(c, w, start)
    case Call(connected) => DoCall(c, w, connected)
    case Disconnected(roaming) => OnDisconnect(c, w, roaming)
    case TearDown => DoDisconnect(c, w)
    case GotIp(ours) => OnGotIp(w, ours)
    case GotIp6(ours, preferred) => OnGotIp6(w, ours, preferred)
    case TakeIp => w.(ip := Live(false), waiter := AfterIp(c))
    case TakeIp6 => w.(ip6 := Live(false), waiter := Checking)
    case Check => w.(waiter := Returned(if w.retryNum > c.maxRetry then Fail else Ok))
  }

  /**
   `run` is a schedule from the start, with any number of connects. Takes are on live semaphores:
   schedules in which the teardown deletes one under a waiter are left out.
   */
  ghost predicate Run(c: Config, run: seq<Event>)
    decreases |run|, 0
  {
    run == [] || (Run(c, Before(run)) && Enabled(c, After(c, Before(run)), Last(run)))
  }

  ghost function After(c: Config, run: seq<Event>): Wifi
    requires Run(c, run)
    decreases |run|, 1
  {
    if run == [] then FRESH else Step(c, After(c, Before(run)), Last(run))
  }

  function Last(run: seq<Event>): Event
    requires run != []
  {
    run[|run| - 1]
  }

  function Before(run: seq<Event>): (before: seq<Event>)
    requires run != []
    ensures |before| < |run| && run == before + [Last(run)]
  {
    run[..|run| - 1]
  }

  // --------------------------------------------------------------------- what a schedule itself tells

  /** The event is a connect that registers the handlers. */
  predicate Registering(c: Config, e: Event) {
    e.Begin? && Registers(c, e.start)
  }

  /** Disconnects since the last got-IP event of the connect underway. */
  function Drops(c: Config, run: seq<Event>): nat
    decreases |run|
  {
    if run == [] || Last(run).GotIp? || Registering(c, Last(run)) then 0
    else Drops(c, Before(run)) + (if Last(run).Disconnected? then 1 else 0)
  }

  /** The connect underway has seen `e`. */
  predicate Seen(c: Config, run: seq<Event>, e: Event)
    decreases |run|
  {
    && run != [] && !Registering(c, Last(run))
    && (Last(run) == e || Seen(c, Before(run), e))
  }

  function GotIps(run: seq<Event>): nat
    decreases |run|
  {
    if run == [] then 0 else GotIps(Before(run)) + (if Last(run).GotIp? then 1 else 0)
  }

  /** Connects that registered the handlers. */
  function Connects(c: Config, run: seq<Event>): nat
    decreases |run|
  {
    if run == [] then 0 else Connects(c, Before(run)) + (if Registering(c, Last(run)) then 1 else 0)
  }

  /** The connect underway waits. */
  predicate Waits(c: Config, run: seq<Event>)
    decreases |run|
  {
    run != [] && if Registering(c, Last(run)) then Last(run).start.wait else Waits(c, Before(run))
  }

  /** The last connect that waited got a semaphore for IPv4. */
  predicate Created(run: seq<Event>)
    decreases |run|
  {
    && run != []
    && if Last(run).Begin? && Last(run).start.wait then Last(run).start.gotIpSemaphore else Created(Before(run))
  }

  /** The last connect that asked for a semaphore for IPv6 got it. */
  predicate Created6(run: seq<Event>)
    decreases |run|
  {
    && run != []
    && if Last(run).Begin? && Last(run).start.wait && Last(run).start.gotIpSemaphore then
         Last(run).start.gotIp6Semaphore
       else
         Created6(Before(run))
  }

  /** The last of registering connects and teardowns is a connect. */
  predicate Dispatching(c: Config, run: seq<Event>)
    decreases |run|
  {
    run != [] && !Last(run).TearDown? && (Registering(c, Last(run)) || Dispatching(c, Before(run)))
  }

  /** The connecting task's own calls of `esp_wifi_connect`. */
  function Calls(run: seq<Event>): nat
    decreases |run|
  {
    if run == [] then 0 else Calls(Before(run)) + (if Last(run).Call? then 1 else 0)
  }

  /** Disconnects, other than for roaming, that came while retries were left. */
  function Reconnects(c: Config, run: seq<Event>): nat
    decreases |run|
  {
    if run == [] then 0
    else
      Reconnects(c, Before(run)) + (if Last(run) == Disconnected(false) && Drops(c, run) <= c.maxRetry then 1 else 0)
  }

  /** A step of the connecting task. */
  predicate OfCaller(e: Event) {
    e.Begin? || e.Call? || e.TakeIp? || e.TakeIp6? || e.Check?
  }

  /** The schedule up to the last step of the connecting task. */
  function CallerPart(run: seq<Event>): (part: seq<Event>)
    ensures part <= run && (part != [] ==> OfCaller(Last(part)))
    decreases |run|
  {
    if run == [] || OfCaller(Last(run)) then run else CallerPart(Before(run))
  }
}
