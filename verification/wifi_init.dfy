/**
 * The station-mode Wi-Fi bring-up of main/wifi_init.cpp: the event handler
 * that reconnects after a disconnect until a budget of five retries is used
 * up, and the wait that reports whether the connection came up.
 *
 * The event group is the two bits kept in the state; `esp_wifi_connect` is
 * the `connect` flag of a step's result.
 */
module WifiInit {
  /** `WIFI_MAX_RETRY`. */
  const MaxRetry: nat := 5

  datatype Event = StaStart | StaDisconnected | GotIp | OtherEvent

  /** `s_retry_num` and the CONNECTED and FAIL bits of the event group. */
  datatype Wifi = Wifi(retries: nat, connectedBit: bool, failBit: bool)

  const Initial: Wifi := Wifi(0, false, false)

  predicate Valid(w: Wifi) {
    w.retries <= MaxRetry
  }

  /**
   * `wifi_event_handler`: STA_START connects; a disconnect reconnects and
   * counts a retry while fewer than five were made, and sets FAIL
   * otherwise; GOT_IP clears the retry count and sets CONNECTED. Bits are
   * never cleared.
   */
  function Handle(w: Wifi, e: Event): (r: (Wifi, bool))
    requires Valid(w)
    ensures Valid(r.0)
    ensures e == StaStart ==> r == (w, true)
    ensures e == StaDisconnected && w.retries < MaxRetry ==> r == (w.(retries := w.retries + 1), true)
    ensures e == StaDisconnected && w.retries >= MaxRetry ==> r == (w.(failBit := true), false)
    ensures e == GotIp ==> r == (w.(retries := 0, connectedBit := true), false)
    ensures e == OtherEvent ==> r == (w, false)
    ensures (w.connectedBit ==> r.0.connectedBit) && (w.failBit ==> r.0.failBit)
  {
    match e
    case StaStart => (w, true)
    case StaDisconnected =>
      if w.retries < MaxRetry then (w.(retries := w.retries + 1), true)
      else (w.(failBit := true), false)
    case GotIp => (w.(retries := 0, connectedBit := true), false)
    case OtherEvent => (w, false)
  }

  /** Events handled in order; the final state and how many connects they started. */
  function Run(w: Wifi, events: seq<Event>): (r: (Wifi, nat))
    requires Valid(w)
    ensures Valid(r.0)
    decreases |events|
  {
    if events == [] then (w, 0)
    else
      var step := Handle(w, events[0]);
      var rest := Run(step.0, events[1..]);
      (rest.0, rest.1 + (if step.1 then 1 else 0))
  }

  function Min(a: nat, b: nat): nat {
    if a <= b then a else b
  }

  /**
   * The retry budget: `n` disconnects in a row reconnect only as long as
   * retries remain, and FAIL is set once a disconnect finds them used up.
   */
  lemma {:induction false} DisconnectsUseBudget(w: Wifi, n: nat)
    requires Valid(w)
    ensures var r := Run(w, seq(n, _ => StaDisconnected));
      r.1 == Min(n, MaxRetry - w.retries)
      && r.0.retries == w.retries + r.1
      && (r.0.failBit <==> w.failBit || n > MaxRetry - w.retries)
      && r.0.connectedBit == w.connectedBit
    decreases n
  {
    if n > 0 {
      var events := seq(n, _ => StaDisconnected);
      assert events[0] == StaDisconnected;
      assert events[1..] == seq(n - 1, _ => StaDisconnected);
      var step := Handle(w, StaDisconnected);
      DisconnectsUseBudget(step.0, n - 1);
    }
  }

  /** Getting an address restores the whole budget. */
  lemma GotIpRestoresBudget(w: Wifi, n: nat)
    requires Valid(w)
    ensures Run(Handle(w, GotIp).0, seq(n, _ => StaDisconnected)).1 == Min(n, MaxRetry)
  {
    DisconnectsUseBudget(Handle(w, GotIp).0, n);
  }

  datatype WaitResult = Connected | Failed | TimedOut

  /**
   * `wifi_wait_connected`: given the bits when the wait returns (both clear
   * when it timed out), CONNECTED wins over FAIL. A timeout of 0 waits
   * forever, which is the wait returning only once a bit is set.
   */
  function Wait(w: Wifi): (r: (bool, WaitResult))
    ensures r.0 <==> w.connectedBit
    ensures r.1 == TimedOut <==> !w.connectedBit && !w.failBit
    ensures r.0 <==> r.1 == Connected
  {
    if w.connectedBit then (true, Connected)
    else if w.failBit then (false, Failed)
    else (false, TimedOut)
  }

  /**
   * Starting up and then losing the link six times without an address ends
   * with FAIL and a false wait: one connect for the start and five retries.
   */
  lemma SixDisconnectsFail()
    ensures var r := Run(Initial, [StaStart] + seq(6, _ => StaDisconnected));
      r.1 == 6 && r.0.failBit && !Wait(r.0).0
  {
    var events := [StaStart] + seq(6, _ => StaDisconnected);
    assert events[0] == StaStart;
    assert events[1..] == seq(6, _ => StaDisconnected);
    DisconnectsUseBudget(Initial, 6);
  }
}
