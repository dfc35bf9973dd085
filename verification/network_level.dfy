/**
 * The network level the firmware reports: a single value summarising the
 * Wi-Fi, IP and MQTT flags (components/network_core/network_event.cpp,
 * main/network_state_machine.cpp, and `get_network_level` in
 * main/mqtt_init.cpp).
 */
module NetworkLevel {
  /** `system_network_level_t`, in declaration order. */
  datatype Level = Down | WifiOnly | IpOnly | MqttReady | ApConfig

  /** The enum value of a level. */
  function Rank(l: Level): nat {
    match l
    case Down => 0
    case WifiOnly => 1
    case IpOnly => 2
    case MqttReady => 3
    case ApConfig => 4
  }

  function Max(a: nat, b: nat): nat {
    if a < b then b else a
  }

  /** The rank of the highest flag that is on: AP mode 4, MQTT 3, IP 2, Wi-Fi 1, none 0. */
  function HighestFlag(apMode: bool, wifiUp: bool, ipReady: bool, mqttReady: bool): nat {
    Max(Max(if apMode then 4 else 0, if mqttReady then 3 else 0), Max(if ipReady then 2 else 0, if wifiUp then 1 else 0))
  }

  /**
   * `network_event_level`: AP mode wins over everything; otherwise MQTT
   * over IP over Wi-Fi, and DOWN when nothing is up. The level is always
   * the one of the highest flag that is on.
   */
  function EventLevel(apMode: bool, wifiUp: bool, ipReady: bool, mqttReady: bool): (r: Level)
    ensures Rank(r) == HighestFlag(apMode, wifiUp, ipReady, mqttReady)
    ensures apMode ==> r == ApConfig
    ensures r == Down <==> !apMode && !wifiUp && !ipReady && !mqttReady
  {
    if apMode then ApConfig
    else if mqttReady then MqttReady
    else if ipReady then IpOnly
    else if wifiUp then WifiOnly
    else Down
  }

  /** Turning a flag on never lowers the level. */
  lemma EventLevelMonotone(a: bool, w: bool, i: bool, m: bool, a': bool, w': bool, i': bool, m': bool)
    requires (a ==> a') && (w ==> w') && (i ==> i') && (m ==> m')
    ensures Rank(EventLevel(a, w, i, m)) <= Rank(EventLevel(a', w', i', m'))
  {
  }

  /**
   * `network_state_machine_level` and `get_network_level`: MQTT over IP
   * over Wi-Fi, DOWN when nothing is up; never AP_CONFIG.
   */
  function StationLevel(wifiUp: bool, ipReady: bool, mqttReady: bool): (r: Level)
    ensures r != ApConfig
    ensures Rank(r) == HighestFlag(false, wifiUp, ipReady, mqttReady)
  {
    if mqttReady then MqttReady
    else if ipReady then IpOnly
    else if wifiUp then WifiOnly
    else Down
  }

  /** The station-side derivation is the event one with AP mode off. */
  lemma StationLevelAgrees(wifiUp: bool, ipReady: bool, mqttReady: bool)
    ensures StationLevel(wifiUp, ipReady, mqttReady) == EventLevel(false, wifiUp, ipReady, mqttReady)
  {
    RankInjective(StationLevel(wifiUp, ipReady, mqttReady), EventLevel(false, wifiUp, ipReady, mqttReady));
  }

  lemma RankInjective(a: Level, b: Level)
    requires Rank(a) == Rank(b)
    ensures a == b
  {
  }

  /** `network_event_t` as network_event.cpp fills it. */
  datatype NetworkEvent = NetworkEvent(level: Level, lastRssi: int, ipAddr: nat, reconnectAttempts: nat, reconnectSuccesses: nat)

  /** `network_event_make`: the level from the flags; signal, address and counters passed through. */
  function MakeEvent(apMode: bool, wifiUp: bool, ipReady: bool, mqttReady: bool,
                     lastRssi: int, ipAddr: nat, attempts: nat, successes: nat): (r: NetworkEvent)
    ensures Rank(r.level) == HighestFlag(apMode, wifiUp, ipReady, mqttReady)
    ensures r.lastRssi == lastRssi && r.ipAddr == ipAddr
    ensures r.reconnectAttempts == attempts && r.reconnectSuccesses == successes
  {
    NetworkEvent(EventLevel(apMode, wifiUp, ipReady, mqttReady), lastRssi, ipAddr, attempts, successes)
  }

  /** The network part of an `app_event_t` of type EVT_NETWORK. */
  datatype AppNetworkEvent = AppNetworkEvent(timestampUs: int, level: Level, lastRssi: int, ipAddr: nat)

  /**
   * The event `network_state_machine_publish` queues: the station level of
   * the flags, with signal, address and timestamp passed through.
   */
  function StateMachineEvent(wifiUp: bool, ipReady: bool, mqttReady: bool, lastRssi: int, ipAddr: nat, timestampUs: int): (r: AppNetworkEvent)
    ensures r.level != ApConfig && Rank(r.level) == HighestFlag(false, wifiUp, ipReady, mqttReady)
    ensures r.lastRssi == lastRssi && r.ipAddr == ipAddr && r.timestampUs == timestampUs
  {
    AppNetworkEvent(timestampUs, StationLevel(wifiUp, ipReady, mqttReady), lastRssi, ipAddr)
  }
}
