/**
 * The sensor event queue front end (main/sensor_events.cpp): creation of the
 * queue once, the publish guard with its rate-limited "queue full" warning,
 * and the names of the event and probe kinds used in log lines.
 *
 * The queue itself is FreeRTOS code; whether a send succeeds, the clock
 * reading and the free-slot count are parameters of each call.
 */
module SensorEvents {
  import opened Wrappers

  /** `PUBLISH_WARN_MIN_INTERVAL_US`: at most one warning per 5 s. */
  const WarnIntervalUs: int := 5 * 1000 * 1000
  const U32Limit: nat := 0x1_0000_0000

  type U32 = x: int | 0 <= x < U32Limit

  /** `event_type_t`; `OtherEvent` is any value outside the enumeration. */
  datatype EventType = SensorEvent | NetworkStateChange | NetworkTelemetry | Tick | OtherEvent(code: int)

  /** `sensor_temperature_probe_t`; `OtherProbe` is any value outside it. */
  datatype ProbeId = WaterProbe | AirProbe | OtherProbe(code: int)

  predicate KnownEvent(t: EventType) {
    !t.OtherEvent?
  }

  /** `event_type_to_string`: one name per kind, "unknown" for anything else. */
  function EventTypeName(t: EventType): (r: string)
    ensures r == "unknown" <==> !KnownEvent(t)
    ensures r != []
  {
    match t
    case SensorEvent => "sensor"
    case NetworkStateChange => "network_state_change"
    case NetworkTelemetry => "network_telemetry"
    case Tick => "tick"
    case OtherEvent(_) => "unknown"
  }

  /** Known kinds have pairwise different names, so a log line identifies the kind. */
  lemma EventTypeNameInjective(a: EventType, b: EventType)
    requires KnownEvent(a) && KnownEvent(b) && EventTypeName(a) == EventTypeName(b)
    ensures a == b
  {
  }

  /** `temperature_probe_to_string`: "water", "air", "unknown" for anything else. */
  function ProbeName(p: ProbeId): (r: string)
    ensures r == "unknown" <==> p.OtherProbe?
    ensures p.WaterProbe? <==> r == "water"
    ensures p.AirProbe? <==> r == "air"
  {
    match p
    case WaterProbe => "water"
    case AirProbe => "air"
    case OtherProbe(_) => "unknown"
  }

  /**
   * `sensor_events_init`: an existing queue is kept; otherwise one is
   * created, and a failed creation aborts the firmware (`None`). The result
   * says whether a queue exists afterwards.
   */
  function Init(queueExists: bool, createOk: bool): (r: Option<bool>)
    ensures queueExists ==> r == Some(true)
    ensures r.None? <==> !queueExists && !createOk
    ensures r.Some? ==> r.value
  {
    if queueExists then Some(true)
    else if createOk then Some(true)
    else None
  }

  /** A second initialisation creates nothing and cannot abort. */
  lemma InitIdempotent(queueExists: bool, createOk: bool, createOk': bool)
    requires Init(queueExists, createOk).Some?
    ensures Init(Init(queueExists, createOk).value, createOk') == Init(queueExists, createOk)
  {
  }

  /**
   * The rate limiter: when the last warning was logged (0 = never) and how
   * many failed sends were not reported since.
   */
  datatype Limiter = Limiter(lastWarnUs: int, suppressed: U32)

  /** A logged warning: when, which of the two texts, and the suppressed count it reports. */
  datatype Warning = Warning(atUs: int, queueFull: bool, suppressed: U32)

  /** One send: whether the queue took the event, the clock, and the free slots after. */
  datatype Attempt = Attempt(queued: bool, nowUs: int, freeSlots: nat)

  datatype PublishResult = PublishResult(ok: bool, limiter: Limiter, warning: Option<Warning>)

  predicate ShouldWarn(l: Limiter, nowUs: int) {
    l.lastWarnUs == 0 || nowUs - l.lastWarnUs >= WarnIntervalUs
  }

  /**
   * `sensor_events_publish`. A missing queue or event gives false and
   * nothing else. A failed send warns when no warning was logged yet or the
   * last one is at least 5 s old, reporting and clearing the suppressed
   * count; otherwise the `uint32_t` suppressed count goes up by one.
   */
  function Publish(l: Limiter, queueExists: bool, eventPresent: bool, a: Attempt): (r: PublishResult)
    ensures r.ok <==> queueExists && eventPresent && a.queued
    ensures r.ok || !queueExists || !eventPresent ==> r.limiter == l && r.warning.None?
    ensures r.warning.Some? <==> queueExists && eventPresent && !a.queued && ShouldWarn(l, a.nowUs)
    ensures r.warning.Some? ==>
      r.limiter == Limiter(a.nowUs, 0)
      && r.warning.value == Warning(a.nowUs, a.freeSlots == 0, l.suppressed)
    ensures queueExists && eventPresent && !a.queued && r.warning.None? ==>
      r.limiter.lastWarnUs == l.lastWarnUs && (l.suppressed + 1) % U32Limit == r.limiter.suppressed
  {
    if !queueExists || !eventPresent then PublishResult(false, l, None)
    else if a.queued then PublishResult(true, l, None)
    else if !ShouldWarn(l, a.nowUs) then
      PublishResult(false, l.(suppressed := (l.suppressed + 1) % U32Limit), None)
    else
      PublishResult(false, Limiter(a.nowUs, 0), Some(Warning(a.nowUs, a.freeSlots == 0, l.suppressed)))
  }

  /** Sends in order to an existing queue with real events; the warnings logged. */
  function Run(l: Limiter, attempts: seq<Attempt>): (r: (Limiter, seq<Warning>))
    ensures |r.1| <= |attempts|
    decreases |attempts|
  {
    if attempts == [] then (l, [])
    else
      var step := Publish(l, true, true, attempts[0]);
      var rest := Run(step.limiter, attempts[1..]);
      (rest.0, (if step.warning.Some? then [step.warning.value] else []) + rest.1)
  }

  function Failures(attempts: seq<Attempt>): (n: nat)
    ensures n <= |attempts|
  {
    if attempts == [] then 0
    else (if attempts[0].queued then 0 else 1) + Failures(attempts[1..])
  }

  /** Every warning stands for itself and the failures it reports. */
  function Reported(ws: seq<Warning>): nat {
    if ws == [] then 0 else ws[0].suppressed + 1 + Reported(ws[1..])
  }

  /** Clock readings that are positive and never go backwards. */
  predicate Clock(l: Limiter, attempts: seq<Attempt>) {
    (forall i :: 0 <= i < |attempts| ==> attempts[i].nowUs > 0 && l.lastWarnUs <= attempts[i].nowUs)
    && (forall i, j :: 0 <= i < j < |attempts| ==> attempts[i].nowUs <= attempts[j].nowUs)
  }

  /** Warnings logged are at least 5 s apart, and at least 5 s after an earlier one. */
  predicate Spaced(l: Limiter, ws: seq<Warning>) {
    (ws != [] && l.lastWarnUs != 0 ==> ws[0].atUs - l.lastWarnUs >= WarnIntervalUs)
    && (forall i :: 0 <= i < |ws| - 1 ==> ws[i + 1].atUs - ws[i].atUs >= WarnIntervalUs)
  }

  /**
   * Over any run of sends with a monotone clock, consecutive warnings are
   * at least `WarnIntervalUs` apart, and the limiter remembers the last one.
   */
  lemma {:induction false} RunWarningsSpaced(l: Limiter, attempts: seq<Attempt>)
    requires Clock(l, attempts)
    ensures Spaced(l, Run(l, attempts).1)
    ensures Run(l, attempts).1 != [] ==> Run(l, attempts).0.lastWarnUs == Run(l, attempts).1[|Run(l, attempts).1| - 1].atUs
    ensures Run(l, attempts).1 == [] ==> Run(l, attempts).0.lastWarnUs == l.lastWarnUs
    ensures forall w :: w in Run(l, attempts).1 ==> w.atUs > 0
    decreases |attempts|
  {
    if attempts != [] {
      var step := Publish(l, true, true, attempts[0]);
      var rest := Run(step.limiter, attempts[1..]);
      assert Clock(step.limiter, attempts[1..]);
      RunWarningsSpaced(step.limiter, attempts[1..]);
      var head: seq<Warning> := if step.warning.Some? then [step.warning.value] else [];
      var ws := head + rest.1;
      assert Run(l, attempts) == (rest.0, ws);
      if step.warning.Some? {
        assert step.limiter.lastWarnUs == attempts[0].nowUs != 0;
        forall i | 0 <= i < |ws| - 1
          ensures ws[i + 1].atUs - ws[i].atUs >= WarnIntervalUs
        {
          if i > 0 {
            assert ws[i] == rest.1[i - 1] && ws[i + 1] == rest.1[i];
          }
        }
      } else {
        assert ws == rest.1;
      }
    }
  }

  /**
   * No failed send goes unaccounted for: the warnings, each counting itself
   * and the failures it reports, plus the count still suppressed, add up to
   * the failures of the run, as long as the 32-bit counter does not wrap.
   */
  lemma {:induction false} RunAccountsFailures(l: Limiter, attempts: seq<Attempt>)
    requires l.suppressed + Failures(attempts) < U32Limit
    ensures Reported(Run(l, attempts).1) + Run(l, attempts).0.suppressed == l.suppressed + Failures(attempts)
    decreases |attempts|
  {
    if attempts != [] {
      var step := Publish(l, true, true, attempts[0]);
      var rest := Run(step.limiter, attempts[1..]);
      RunAccountsFailures(step.limiter, attempts[1..]);
      if step.warning.Some? {
        assert Run(l, attempts).1 == [step.warning.value] + rest.1;
        assert ([step.warning.value] + rest.1)[1..] == rest.1;
      } else {
        assert Run(l, attempts).1 == rest.1;
      }
    }
  }
}
