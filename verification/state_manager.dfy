/**
 * The state manager task (main/state_manager.cpp): it turns sensor and
 * network events into outputs. Modelled here are the temperature fault
 * indicator and what a temperature reading publishes, the two per-session
 * flags that make boot diagnostics and the "online" status go out once per
 * MQTT_READY period, the end of the task on AP mode, and the boot mode text.
 *
 * A NaN temperature is the boolean `None` reading; what the publisher queue
 * answers is a parameter of each event.
 */
module StateManager {
  import opened Wrappers
  import opened NetworkLevel
  import opened SensorEvents
  import MqttTopics
  import OtaManager

  /** The fault flags of the two temperature probes. */
  datatype Faults = Faults(water: bool, air: bool)

  /** A temperature reading: `None` is NaN, the probe's fault value. */
  type Reading = Option<real>

  /** What is queued for MQTT: an empty value (a fault) or a number. */
  datatype Enqueued = EmptyValue(topic: nat) | Number(topic: nat, value: real)

  /** What the LCD shows for the water temperature. */
  datatype LcdTemperature = Dashes | Degrees(value: real)

  datatype TemperatureOutputs = TemperatureOutputs(
    faults: Faults, indicator: bool, enqueued: Enqueued, lcd: Option<LcdTemperature>)

  /**
   * `publish_temperature_to_outputs`: the air probe updates the air fault,
   * every other probe value the water fault; the fault indicator is on
   * when either is; a fault queues an empty value and a good reading its
   * number, on the probe's topic; only the water probe shows on the LCD.
   */
  function Temperature(f: Faults, probe: ProbeId, reading: Reading): (r: TemperatureOutputs)
    ensures r.indicator <==> r.faults.water || r.faults.air
    ensures probe == AirProbe ==> r.faults == f.(air := reading.None?)
    ensures probe != AirProbe ==> r.faults == f.(water := reading.None?)
    ensures r.enqueued.topic == if probe == AirProbe then MqttTopics.StavTeplotaVzduch else MqttTopics.StavTeplotaVoda
    ensures r.enqueued.EmptyValue? <==> reading.None?
    ensures reading.Some? ==> r.enqueued == Number(r.enqueued.topic, reading.value)
    ensures r.lcd.Some? <==> probe == WaterProbe
    ensures r.lcd.Some? ==> (r.lcd.value == Dashes <==> reading.None?)
  {
    var faults := if probe == AirProbe then f.(air := reading.None?) else f.(water := reading.None?);
    var topic := if probe == AirProbe then MqttTopics.StavTeplotaVzduch else MqttTopics.StavTeplotaVoda;
    var enqueued := if reading.None? then EmptyValue(topic) else Number(topic, reading.value);
    var lcd := if probe != WaterProbe then None
      else if reading.None? then Some(Dashes)
      else Some(Degrees(reading.value));
    TemperatureOutputs(faults, faults.water || faults.air, enqueued, lcd)
  }

  /** Temperature events in order, from the start-up flags (both clear). */
  function Temperatures(f: Faults, events: seq<(ProbeId, Reading)>): Faults
    decreases |events|
  {
    if events == [] then f
    else Temperatures(Temperature(f, events[0].0, events[0].1).faults, events[1..])
  }

  /** Whether the latest reading of the probes selected by `air` is a fault, or `dflt` without one. */
  function LatestFault(events: seq<(ProbeId, Reading)>, air: bool, dflt: bool): bool
    decreases |events|
  {
    if events == [] then dflt
    else if (events[|events| - 1].0 == AirProbe) == air then events[|events| - 1].1.None?
    else LatestFault(events[..|events| - 1], air, dflt)
  }

  /**
   * Each flag follows only its own probe: after any sequence of readings
   * the water flag is the fault of the latest non-air reading and the air
   * flag that of the latest air reading.
   */
  lemma {:induction false} FaultsFollowLatest(f: Faults, events: seq<(ProbeId, Reading)>)
    ensures Temperatures(f, events) == Faults(LatestFault(events, false, f.water), LatestFault(events, true, f.air))
    decreases |events|
  {
    if events != [] {
      var n := |events| - 1;
      var init := events[..n];
      TemperaturesSnoc(f, init, events[n]);
      assert init + [events[n]] == events;
      FaultsFollowLatest(f, init);
    }
  }

  lemma {:induction false} TemperaturesSnoc(f: Faults, events: seq<(ProbeId, Reading)>, e: (ProbeId, Reading))
    ensures Temperatures(f, events + [e]) == Temperature(Temperatures(f, events), e.0, e.1).faults
    decreases |events|
  {
    if events != [] {
      var f' := Temperature(f, events[0].0, events[0].1).faults;
      assert (events + [e])[1..] == events[1..] + [e];
      TemperaturesSnoc(f', events[1..], e);
    }
  }

  /** The flags of one MQTT_READY period and whether the task still runs. */
  datatype Session = Session(onlinePublished: bool, diagnosticsPublished: bool, running: bool)

  const Start: Session := Session(false, false, true)

  /** What a network state change makes the task do, in order. */
  datatype Action =
    | SetConnected(connected: bool)
    | ShowApMode
    | ShowNetwork
    | BootDiagnostics
    | EnqueueOnline

  /**
   * The EVT_NETWORK_STATE_CHANGE branch of `state_manager_task`. AP_CONFIG
   * switches the publisher off and ends the task. Any other level updates
   * the display and sets the publisher's connected flag to whether the
   * level is MQTT_READY. At MQTT_READY the boot diagnostics go out if they
   * have not this period, and "online" is queued unless it has been;
   * `onlineOk` is whether the queue takes it. Below MQTT_READY both
   * flags are cleared.
   */
  function NetworkChange(s: Session, to: Level, onlineOk: bool): (r: (Session, seq<Action>))
    requires s.running
    ensures to == ApConfig ==> r == (s.(running := false), [SetConnected(false), ShowApMode])
    ensures to != ApConfig ==> r.0.running && |r.1| >= 2 && r.1[..2] == [ShowNetwork, SetConnected(to == MqttReady)]
    ensures to != ApConfig && to != MqttReady ==> r == (Start, [ShowNetwork, SetConnected(false)])
    ensures to == MqttReady ==> (BootDiagnostics in r.1 <==> !s.diagnosticsPublished) && r.0.diagnosticsPublished
    ensures to == MqttReady ==> (EnqueueOnline in r.1 <==> !s.onlinePublished)
    ensures to == MqttReady ==> (r.0.onlinePublished <==> s.onlinePublished || onlineOk)
  {
    if to == ApConfig then (s.(running := false), [SetConnected(false), ShowApMode])
    else
      var common := [ShowNetwork, SetConnected(to == MqttReady)];
      if to != MqttReady then (Start, common)
      else
        var diag := if s.diagnosticsPublished then [] else [BootDiagnostics];
        var online := if s.onlinePublished then [] else [EnqueueOnline];
        (Session(s.onlinePublished || onlineOk, true, true), common + diag + online)
  }

  /** Network changes in order, each with the queue's answer to "online"; stops when the task has ended. */
  function Changes(s: Session, events: seq<(Level, bool)>): (r: (Session, seq<Action>))
    decreases |events|
  {
    if events == [] || !s.running then (s, [])
    else
      var step := NetworkChange(s, events[0].0, events[0].1);
      var rest := Changes(step.0, events[1..]);
      (rest.0, step.1 + rest.1)
  }

  /**
   * Within one MQTT_READY period the boot diagnostics go out at most once,
   * and not at all when they already went out in it.
   */
  lemma {:induction false} DiagnosticsOncePerPeriod(s: Session, events: seq<(Level, bool)>)
    requires forall i :: 0 <= i < |events| ==> events[i].0 == MqttReady
    ensures multiset(Changes(s, events).1)[BootDiagnostics] <= (if s.diagnosticsPublished then 0 else 1)
    decreases |events|
  {
    if events != [] && s.running {
      var step := NetworkChange(s, events[0].0, events[0].1);
      var rest := Changes(step.0, events[1..]);
      DiagnosticsOncePerPeriod(step.0, events[1..]);
      assert multiset(step.1 + rest.1) == multiset(step.1) + multiset(rest.1);
      if !s.diagnosticsPublished {
        assert step.1 == [ShowNetwork, SetConnected(true), BootDiagnostics] + (if s.onlinePublished then [] else [EnqueueOnline]);
      }
    }
  }

  /**
   * "online" is queued again at every MQTT_READY event until the queue
   * first takes it: event `i` of a period queues it exactly when no earlier
   * event of the period succeeded (and it was not out already).
   */
  lemma {:induction false} OnlineRetried(s: Session, events: seq<(Level, bool)>, i: nat)
    requires s.running && i < |events|
    requires forall j :: 0 <= j < |events| ==> events[j].0 == MqttReady
    ensures Changes(s, events[..i]).0.running
    ensures EnqueueOnline in NetworkChange(Changes(s, events[..i]).0, MqttReady, events[i].1).1 <==>
      !s.onlinePublished && forall j :: 0 <= j < i ==> !events[j].1
    decreases i
  {
    if i > 0 {
      var step := NetworkChange(s, events[0].0, events[0].1);
      assert events[..i][1..] == events[1..][..i - 1];
      assert Changes(s, events[..i]).0 == Changes(step.0, events[1..][..i - 1]).0;
      OnlineRetried(step.0, events[1..], i - 1);
      assert step.0.onlinePublished <==> s.onlinePublished || events[0].1;
      if !s.onlinePublished && (forall j :: 0 <= j < i ==> !events[j].1) {
        forall j | 0 <= j < i - 1 ensures !events[1..][j].1 {
          assert events[1..][j] == events[j + 1];
        }
      }
      if !step.0.onlinePublished && (forall j :: 0 <= j < i - 1 ==> !events[1..][j].1) {
        forall j | 0 <= j < i ensures !events[j].1 {
          if j > 0 {
            assert events[j] == events[1..][j - 1];
          }
        }
      }
    }
  }

  /** After AP_CONFIG the task handles nothing more. */
  lemma ApConfigEndsTask(s: Session, onlineOk: bool, events: seq<(Level, bool)>)
    requires s.running
    ensures var after := NetworkChange(s, ApConfig, onlineOk).0;
      !after.running && Changes(after, events) == (after, [])
  {
  }

  /**
   * `publish_boot_diagnostics_once`: the boot mode is "ota" exactly when the
   * running partition is known, its state can be read, and it is pending
   * verification; otherwise "normal". The firmware version follows when the
   * application description is available.
   */
  function BootMode(hasRunning: bool, stateResult: EspErr, state: OtaManager.ImageState): (r: string)
    ensures r == "ota" <==> hasRunning && stateResult == Ok && state == OtaManager.PendingVerify
    ensures r == "ota" || r == "normal"
  {
    if hasRunning && stateResult == Ok && state == OtaManager.PendingVerify then "ota" else "normal"
  }

  datatype TextOut = TextOut(topic: nat, text: string)

  function Diagnostics(hasRunning: bool, stateResult: EspErr, state: OtaManager.ImageState, version: Option<string>): (r: seq<TextOut>)
    ensures |r| >= 1 && r[0].topic == MqttTopics.SystemBootMode
    ensures r[0].text == "ota" <==> hasRunning && stateResult == Ok && state == OtaManager.PendingVerify
    ensures |r| == 2 <==> version.Some?
    ensures version.Some? ==> r[1] == TextOut(MqttTopics.DiagFwVersion, version.value)
  {
    [TextOut(MqttTopics.SystemBootMode, BootMode(hasRunning, stateResult, state))]
      + (if version.Some? then [TextOut(MqttTopics.DiagFwVersion, version.value)] else [])
  }
}
