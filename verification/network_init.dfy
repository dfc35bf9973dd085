/**
 * The station/access-point bring-up and MQTT client start-up of
 * components/network_core/network_init.cpp, and `network_ap_mode_start` of
 * components/network_core/network_ap_mode.cpp: the Wi-Fi reconnect
 * back-off, the MQTT client id, the reported signal strength, the argument
 * checks and the last-will configuration. The ESP-IDF calls are outcomes
 * passed in as parameters.
 */
module NetworkInit {
  import opened Wrappers
  import opened Chars
  import MqttConfig

  // ---------------------------------------------------------- reconnect back-off

  const ReconnectDelayMinMs: nat := 1000
  const ReconnectDelayMaxMs: nat := 60000

  /** The back-off state: the next delay and the reconnect timer currently armed, if any. */
  datatype Reconnect = Reconnect(delayMs: nat, armedMs: Option<nat>)

  const InitialReconnect := Reconnect(ReconnectDelayMinMs, None)

  predicate ValidReconnect(st: Reconnect) {
    ReconnectDelayMinMs <= st.delayMs <= ReconnectDelayMaxMs
    && (st.armedMs.Some? ==> ReconnectDelayMinMs <= st.armedMs.value <= ReconnectDelayMaxMs)
  }

  /**
   * `schedule_wifi_reconnect`: with a timer, arm it for the current delay
   * and double the delay up to the 60 s cap; without one, do nothing.
   */
  function ScheduleReconnect(hasTimer: bool, st: Reconnect): (r: Reconnect)
    requires ValidReconnect(st)
    ensures ValidReconnect(r)
    ensures !hasTimer ==> r == st
    ensures hasTimer ==> r.armedMs == Some(st.delayMs)
    ensures hasTimer ==> st.delayMs <= r.delayMs <= 2 * st.delayMs
    ensures hasTimer && st.delayMs < ReconnectDelayMaxMs ==> r.delayMs == 2 * st.delayMs || r.delayMs == ReconnectDelayMaxMs
  {
    if !hasTimer then st
    else
      var next := if st.delayMs < ReconnectDelayMaxMs then
          (if st.delayMs * 2 > ReconnectDelayMaxMs then ReconnectDelayMaxMs else st.delayMs * 2)
        else st.delayMs;
      Reconnect(next, Some(st.delayMs))
  }

  /** The Wi-Fi and IP events `wifi_event_handler` reacts to. */
  datatype WifiEvent = StaStart | StaConnected | StaDisconnected | GotIp

  /**
   * The back-off part of `wifi_event_handler`: a disconnect schedules a
   * reconnect; being associated or getting an address resets the delay to
   * 1 s and stops the timer.
   */
  function OnWifiEvent(hasTimer: bool, st: Reconnect, e: WifiEvent): (r: Reconnect)
    requires ValidReconnect(st)
    ensures ValidReconnect(r)
    ensures (e == StaConnected || e == GotIp) ==> r == InitialReconnect
    ensures e == StaStart ==> r == st
  {
    match e
    case StaStart => st
    case StaConnected => InitialReconnect
    case StaDisconnected => ScheduleReconnect(hasTimer, st)
    case GotIp => InitialReconnect
  }

  /** The state after a run of events. */
  function RunEvents(hasTimer: bool, st: Reconnect, events: seq<WifiEvent>): (r: Reconnect)
    requires ValidReconnect(st)
    ensures ValidReconnect(r)
  {
    if events == [] then st
    else OnWifiEvent(hasTimer, RunEvents(hasTimer, st, events[..|events| - 1]), events[|events| - 1])
  }

  function Pow2(n: nat): (r: nat)
    ensures r >= 1
  {
    if n == 0 then 1 else 2 * Pow2(n - 1)
  }

  /** The delay after `n` doublings of 1 s, capped at 60 s. */
  function CappedDelay(n: nat): (r: nat) {
    if ReconnectDelayMinMs * Pow2(n) > ReconnectDelayMaxMs then ReconnectDelayMaxMs else ReconnectDelayMinMs * Pow2(n)
  }

  function Disconnects(n: nat): (r: seq<WifiEvent>)
    ensures |r| == n && forall k :: 0 <= k < n ==> r[k] == StaDisconnected
  {
    seq(n, k => StaDisconnected)
  }

  /**
   * From a fresh start, `n` disconnects in a row leave the delay at
   * min(1 s · 2^n, 60 s), with the last reconnect armed for
   * min(1 s · 2^(n-1), 60 s).
   */
  lemma {:induction false} BackoffDoubles(n: nat)
    ensures RunEvents(true, InitialReconnect, Disconnects(n))
      == Reconnect(CappedDelay(n), if n == 0 then None else Some(CappedDelay(n - 1)))
  {
    if n > 0 {
      assert Disconnects(n)[..n - 1] == Disconnects(n - 1);
      BackoffDoubles(n - 1);
      if ReconnectDelayMinMs * Pow2(n - 1) > ReconnectDelayMaxMs {
        assert ReconnectDelayMinMs * Pow2(n) > ReconnectDelayMaxMs;
      }
    }
  }

  /** Whatever happened before, a connect or an address restores the initial back-off. */
  lemma ConnectResets(hasTimer: bool, st: Reconnect, events: seq<WifiEvent>, e: WifiEvent)
    requires ValidReconnect(st)
    requires e == StaConnected || e == GotIp
    ensures RunEvents(hasTimer, st, events + [e]) == InitialReconnect
  {
    assert (events + [e])[..|events|] == events;
  }

  // ---------------------------------------------------------- client id

  const ClientIdBufLen: nat := 32

  /** `%02x` of one byte. */
  function HexByte(b: Byte): (r: string)
    ensures |r| == 2 && IsHexDigit(r[0]) && IsHexDigit(r[1]) && HexValue(r[0]) * 16 + HexValue(r[1]) == b
  {
    [HexDigit(b / 16), HexDigit(b % 16)]
  }

  /**
   * `ensure_client_id_generated`: an id already set is kept; otherwise
   * "esp32-" and the last three bytes of the station MAC in hex, or
   * "esp32-client" when the MAC cannot be read.
   */
  function ClientId(current: string, mac: Option<seq<Byte>>): (r: string)
    requires mac.Some? ==> |mac.value| == 6
    ensures current != [] ==> r == current
    ensures current == [] ==> r != [] && |r| < ClientIdBufLen && HasPrefix(r, "esp32-")
    ensures current == [] && mac.None? ==> r == "esp32-client"
  {
    if current != [] then current
    else match mac
      case None => "esp32-client"
      case Some(m) => "esp32-" + HexByte(m[3]) + HexByte(m[4]) + HexByte(m[5])
  }

  /** The generated id names the device: its six hex digits read back as MAC bytes 3 to 5. */
  lemma ClientIdNamesMac(mac: seq<Byte>)
    requires |mac| == 6
    ensures var id := ClientId([], Some(mac));
      |id| == 12 && forall k :: 0 <= k < 3 ==>
        IsHexDigit(id[6 + 2 * k]) && IsHexDigit(id[7 + 2 * k])
        && HexValue(id[6 + 2 * k]) * 16 + HexValue(id[7 + 2 * k]) == mac[3 + k]
  {
    var id := ClientId([], Some(mac));
    assert id[6..8] == HexByte(mac[3]);
    assert id[8..10] == HexByte(mac[4]);
    assert id[10..12] == HexByte(mac[5]);
  }

  /** The id is generated once: later calls keep it whatever the MAC read gives. */
  lemma ClientIdOnce(mac: Option<seq<Byte>>, later: Option<seq<Byte>>)
    requires mac.Some? ==> |mac.value| == 6
    requires later.Some? ==> |later.value| == 6
    ensures ClientId(ClientId([], mac), later) == ClientId([], mac)
  {
  }

  // ---------------------------------------------------------- signal strength

  /** `INT8_MIN`, the "no signal known" value. */
  const RssiUnknown: int := -128

  /**
   * The signal part of `publish_network_event`: Wi-Fi counts as up when the
   * caller says so or the AP record can be read. A fresh AP reading is
   * reported and cached; otherwise the cache is reported while Wi-Fi is up
   * and one exists; otherwise INT8_MIN. Gives (wifi up, reported, cache).
   */
  function SelectRssi(apRssi: Option<int>, wifiUpHint: bool, cached: int): (r: (bool, int, int))
    ensures r.0 <==> wifiUpHint || apRssi.Some?
    ensures apRssi.Some? ==> r.1 == apRssi.value && r.2 == apRssi.value
    ensures apRssi.None? ==> r.2 == cached
    ensures r.1 == RssiUnknown || (apRssi.Some? && r.1 == apRssi.value) || (r.0 && r.1 == cached)
    ensures apRssi.None? && !wifiUpHint ==> r.1 == RssiUnknown
  {
    var wifiUp := wifiUpHint || apRssi.Some?;
    if apRssi.Some? then (wifiUp, apRssi.value, apRssi.value)
    else if wifiUp && cached != RssiUnknown then (wifiUp, cached, cached)
    else (wifiUp, RssiUnknown, cached)
  }

  /** One call of `publish_network_event`: the AP reading, if any, and the caller's hint. */
  datatype Sample = Sample(apRssi: Option<int>, wifiUpHint: bool)

  /** The cache after a run of calls. */
  function CacheAfter(cached: int, samples: seq<Sample>): int {
    if samples == [] then cached
    else SelectRssi(samples[|samples| - 1].apRssi, samples[|samples| - 1].wifiUpHint, CacheAfter(cached, samples[..|samples| - 1])).2
  }

  /** The last reading any call obtained, or INT8_MIN if none did. */
  function LastReading(samples: seq<Sample>): int {
    if samples == [] then RssiUnknown
    else if samples[|samples| - 1].apRssi.Some? then samples[|samples| - 1].apRssi.value
    else LastReading(samples[..|samples| - 1])
  }

  /** The cache always holds the last reading obtained, so a reported value is never made up. */
  lemma {:induction false} CacheIsLastReading(samples: seq<Sample>)
    ensures CacheAfter(RssiUnknown, samples) == LastReading(samples)
  {
    if samples != [] {
      CacheIsLastReading(samples[..|samples| - 1]);
    }
  }

  // ---------------------------------------------------------- station and access point

  /** SSID and password buffers of `wifi_config_t`. */
  const SsidBufLen: nat := 32
  const PasswordBufLen: nat := 64

  datatype StaConfig = StaConfig(ssid: string, password: string)

  /**
   * `network_init_sta`: refuses a missing SSID or password or an empty
   * SSID; otherwise configures the station with both cut to their buffers.
   */
  function InitSta(ssid: Option<string>, password: Option<string>): (r: (EspErr, Option<StaConfig>))
    ensures r.0 == InvalidArg <==> ssid.None? || password.None? || ssid.value == []
    ensures r.0 == InvalidArg <==> r.1.None?
    ensures r.0 == Ok || r.0 == InvalidArg
    ensures r.1.Some? ==> HasPrefix(ssid.value, r.1.value.ssid) && r.1.value.ssid != []
    ensures r.1.Some? ==> |r.1.value.ssid| == MqttConfig.Min(|ssid.value|, SsidBufLen - 1)
    ensures r.1.Some? ==> HasPrefix(password.value, r.1.value.password)
    ensures r.1.Some? ==> |r.1.value.password| == MqttConfig.Min(|password.value|, PasswordBufLen - 1)
  {
    if ssid.None? || password.None? || ssid.value == [] then (InvalidArg, None)
    else (Ok, Some(StaConfig(Truncate(ssid.value, SsidBufLen - 1), Truncate(password.value, PasswordBufLen - 1))))
  }

  /**
   * Credentials that fit their buffers reach the station configuration
   * unchanged, and longer ones keep exactly what fits: configuring again
   * with what was stored stores the same thing.
   */
  lemma InitStaStable(ssid: string, password: string)
    requires ssid != []
    ensures var r := InitSta(Some(ssid), Some(password));
      r.0 == Ok
      && (|ssid| < SsidBufLen && |password| < PasswordBufLen ==> r.1.value == StaConfig(ssid, password))
      && InitSta(Some(r.1.value.ssid), Some(r.1.value.password)) == r
  {
    var r := InitSta(Some(ssid), Some(password));
    assert |r.1.value.ssid| < SsidBufLen && |r.1.value.password| < PasswordBufLen;
  }

  datatype AuthMode = AuthOpen | AuthWpa2Psk

  /** The access-point part of `wifi_config_t`. */
  datatype ApConfig = ApConfig(ssid: string, ssidLen: nat, password: string, auth: AuthMode, channel: nat, maxConnection: nat)

  /**
   * The AP configuration both `network_init_ap` and `network_ap_mode_start`
   * build, as written: the SSID cut to 31 bytes but its length taken from
   * the full name, stored in a `uint8_t`. A non-empty password gives
   * WPA2-PSK, otherwise the network is open.
   */
  function ApConfigAsWritten(ssid: string, password: Option<string>): (r: ApConfig)
    ensures r.ssidLen == |ssid| % 256
    ensures HasPrefix(ssid, r.ssid) && |r.ssid| == MqttConfig.Min(|ssid|, SsidBufLen - 1)
    ensures r.auth == AuthOpen <==> password.None? || password.value == []
    ensures r.auth == AuthWpa2Psk ==> HasPrefix(password.value, r.password) && r.password != []
    ensures r.auth == AuthOpen ==> r.password == []
    ensures r.channel == 1 && r.maxConnection == 4
  {
    var protected := password.Some? && password.value != [];
    ApConfig(Truncate(ssid, SsidBufLen - 1), |ssid| % 256,
             if protected then Truncate(password.value, PasswordBufLen - 1) else [],
             if protected then AuthWpa2Psk else AuthOpen, 1, 4)
  }

  /** A 32-character SSID is advertised with a length that does not match what was stored. */
  lemma SsidLengthMismatch()
    ensures var ssid := seq(32, k => 'A');
      var c := ApConfigAsWritten(ssid, None);
      c.ssidLen == 32 && |c.ssid| == 31
  {
  }

  /**
   * The AP configuration with the length taken from the stored SSID: the
   * advertised name is exactly what the configuration holds, a prefix of
   * the requested one. A non-empty password gives WPA2-PSK, otherwise the
   * network is open.
   */
  function ApConfigFor(ssid: string, password: Option<string>): (r: ApConfig)
    ensures r.ssidLen == |r.ssid| < SsidBufLen && HasPrefix(ssid, r.ssid)
    ensures |ssid| < SsidBufLen ==> r.ssid == ssid
    ensures r.auth == AuthOpen <==> password.None? || password.value == []
    ensures r.auth == AuthWpa2Psk ==> HasPrefix(password.value, r.password) && r.password != []
    ensures r.channel == 1 && r.maxConnection == 4
  {
    var c := ApConfigAsWritten(ssid, password);
    c.(ssidLen := |c.ssid|)
  }

  /**
   * The two agree on names shorter than 32 characters, and on longer ones
   * only when the length wraps round to 31 in the `uint8_t`.
   */
  lemma ApConfigAgreement(ssid: string, password: Option<string>)
    ensures ApConfigFor(ssid, password) == ApConfigAsWritten(ssid, password)
      <==> |ssid| < SsidBufLen || |ssid| % 256 == SsidBufLen - 1
  {
  }

  /**
   * `network_ap_mode_start` (and `network_init_ap`, whose failures abort
   * instead): a missing or empty SSID is refused; otherwise the mode, the
   * configuration and the start are attempted in that order and the first
   * failure is returned. The captive DNS server is started only when all
   * three succeed. The configuration applied is the one built as written,
   * with the advertised length taken from the full name. Gives the result,
   * the configuration applied and whether the DNS server was started.
   */
  function ApModeStart(ssid: Option<string>, password: Option<string>,
                       setMode: EspErr, setConfig: EspErr, start: EspErr): (r: (EspErr, Option<ApConfig>, bool))
    ensures r.0 == InvalidArg && r.1.None? <== ssid.None? || ssid.value == []
    ensures ssid.Some? && ssid.value != [] ==>
      r.0 == (if setMode != Ok then setMode else if setConfig != Ok then setConfig else start)
    ensures r.2 <==> r.0 == Ok
    ensures r.1.Some? <==> ssid.Some? && ssid.value != [] && setMode == Ok
    ensures r.1.Some? ==> r.1.value == ApConfigAsWritten(ssid.value, password)
  {
    if ssid.None? || ssid.value == [] then (InvalidArg, None, false)
    else if setMode != Ok then (setMode, None, false)
    else
      var cfg := ApConfigAsWritten(ssid.value, password);
      if setConfig != Ok then (setConfig, Some(cfg), false)
      else if start != Ok then (start, Some(cfg), false)
      else (Ok, Some(cfg), true)
  }

  /**
   * Starting the access point with a 32-character SSID applies a
   * configuration that stores 31 characters but advertises 32, where the
   * corrected configuration advertises the 31 it stores.
   */
  lemma ApModeStartMismatch(password: Option<string>)
    ensures var ssid := seq(32, k => 'A');
      var r := ApModeStart(Some(ssid), password, Ok, Ok, Ok);
      r.0 == Ok && r.1.Some? && r.1.value.ssidLen == 32 && |r.1.value.ssid| == 31
      && ApConfigFor(ssid, password).ssidLen == 31
  {
  }

  // ---------------------------------------------------------- MQTT client and last will

  const LwtTopicBufLen: nat := 128
  const OfflineMessage: string := "offline"

  /** `network_mqtt_lwt_config_t`. */
  datatype LwtRequest = LwtRequest(enabled: bool, statusTopic: Option<string>, qos: int, retain: bool)

  /** The last-will message handed to the client. */
  datatype Will = Will(topic: string, message: string, qos: nat, retain: bool)

  /** The module's MQTT state: client created, broker settings, status topic, last will, client id. */
  datatype Mqtt = Mqtt(client: bool, cfg: MqttConfig.Config, statusTopic: string, will: Option<Will>, clientId: string)

  const InitialMqtt := Mqtt(false, MqttConfig.EmptyConfig, [], None, [])

  /** A last will, when set, is "offline" on the stored status topic with a valid QoS. */
  predicate ValidMqtt(st: Mqtt) {
    st.will.Some? ==>
      st.will.value.topic == st.statusTopic != [] && st.will.value.message == OfflineMessage
      && st.will.value.qos <= 2 && |st.statusTopic| < LwtTopicBufLen
  }

  /** The outcomes of the ESP-IDF calls `network_mqtt_start_ex` makes. */
  datatype MqttCalls = MqttCalls(mac: Option<seq<Byte>>, eventGroupOk: bool, clientOk: bool, registerResult: EspErr, startResult: EspErr)

  predicate ValidCalls(calls: MqttCalls) {
    calls.mac.Some? ==> |calls.mac.value| == 6
  }

  /** QoS clamped into 0..2, the levels section 4.3 of MQTT 3.1.1 defines. */
  function ClampQos(q: int): (r: nat)
    ensures r <= 2 && (0 <= q <= 2 ==> r == q)
  {
    if q < 0 then 0 else if q > 2 then 2 else q
  }

  predicate WantsWill(lwt: Option<LwtRequest>) {
    lwt.Some? && lwt.value.enabled
  }

  /**
   * `network_mqtt_start_ex`: a second start does nothing; an invalid broker
   * URI is refused before anything changes; the previous last will is
   * cleared; an enabled will without a status topic is refused; the will
   * is the message "offline" on the status topic, cut to 127 characters,
   * with the QoS clamped. The client is created only after the event group
   * exists and the client id is generated.
   */
  function MqttStart(st: Mqtt, uri: Option<string>, username: Option<string>, password: Option<string>,
                     lwt: Option<LwtRequest>, calls: MqttCalls): (r: (EspErr, Mqtt))
    requires ValidMqtt(st) && ValidCalls(calls)
    ensures ValidMqtt(r.1)
    ensures st.client ==> r == (Ok, st)
    ensures !st.client && !MqttConfig.IsValidUri(uri) ==> r == (InvalidArg, st)
    ensures !st.client && MqttConfig.IsValidUri(uri) && WantsWill(lwt)
      && (lwt.value.statusTopic.None? || lwt.value.statusTopic.value == [])
      ==> r.0 == InvalidArg && !r.1.client && r.1.will.None? && r.1.statusTopic == []
    ensures !st.client && r.0 == Ok ==> r.1.client && MqttConfig.IsValidUri(Some(r.1.cfg.uri)) && r.1.clientId != []
    ensures !st.client && r.0 == Ok ==> (r.1.will.Some? <==> WantsWill(lwt))
  {
    if st.client then (Ok, st)
    else
      var (ok, cfg) := MqttConfig.Prepare(st.cfg, uri, username, password);
      if !ok then (InvalidArg, st)
      else
        MqttConfig.StoredUriIsValid(st.cfg, uri, username, password);
        var cleared := st.(cfg := cfg, statusTopic := [], will := None);
        if WantsWill(lwt) && (lwt.value.statusTopic.None? || lwt.value.statusTopic.value == []) then (InvalidArg, cleared)
        else
          var configured :=
            if WantsWill(lwt) then
              var topic := Truncate(lwt.value.statusTopic.value, LwtTopicBufLen - 1);
              cleared.(statusTopic := topic, will := Some(Will(topic, OfflineMessage, ClampQos(lwt.value.qos), lwt.value.retain)))
            else cleared;
          if !calls.eventGroupOk then (NoMem, configured)
          else
            var named := configured.(clientId := ClientId(configured.clientId, calls.mac));
            if !calls.clientOk then (Fail, named)
            else
              var created := named.(client := true);
              if calls.registerResult != Ok then (calls.registerResult, created)
              else if calls.startResult != Ok then (calls.startResult, created)
              else (Ok, created)
  }

  /** `network_mqtt_status_topic`: NULL exactly when no status topic is stored. */
  function StatusTopic(st: Mqtt): (r: Option<string>)
    ensures r.None? <==> st.statusTopic == []
    ensures r.Some? ==> r.value == st.statusTopic
  {
    if st.statusTopic == [] then None else Some(st.statusTopic)
  }

  /**
   * After a successful first start the status topic is the requested one
   * (cut to 127 characters) when a will was asked for, and NULL otherwise;
   * a second start changes nothing.
   */
  lemma StatusTopicAfterStart(uri: string, username: Option<string>, password: Option<string>,
                              lwt: Option<LwtRequest>, calls: MqttCalls, again: MqttCalls)
    requires ValidCalls(calls) && ValidCalls(again)
    requires MqttStart(InitialMqtt, Some(uri), username, password, lwt, calls).0 == Ok
    ensures var st := MqttStart(InitialMqtt, Some(uri), username, password, lwt, calls).1;
      (WantsWill(lwt) ==> StatusTopic(st) == Some(Truncate(lwt.value.statusTopic.value, LwtTopicBufLen - 1)))
      && (!WantsWill(lwt) ==> StatusTopic(st).None?)
      && MqttStart(st, Some(uri), username, password, lwt, again) == (Ok, st)
  {
  }
}
