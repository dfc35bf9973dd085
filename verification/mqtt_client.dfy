/**
 * Publishing through the MQTT client: `mqtt_publish` and
 * `mqtt_publish_online_status` (components/network_core/mqtt_publish.cpp),
 * and the older stand-alone client set-up of main/mqtt_init.cpp, whose
 * `mqtt_publish` has the same guards.
 */
module MqttClient {
  import opened Wrappers
  import opened Chars
  import MqttConfig
  import NetworkLevel

  /** A message handed to `esp_mqtt_client_publish`; the firmware always uses QoS 1. */
  datatype Message = Message(topic: string, payload: string, qos: nat, retain: bool)

  /**
   * `mqtt_publish`: without a client or while disconnected nothing is
   * published and the result is INVALID_STATE; a refused publish is
   * ESP_FAIL. Gives the result and the message handed to the client.
   */
  function Publish(hasClient: bool, connected: bool, accepted: bool,
                   topic: string, data: string, retain: bool): (r: (EspErr, Option<Message>))
    ensures r.0 == InvalidState <==> !hasClient || !connected
    ensures r.1.Some? <==> hasClient && connected
    ensures r.1.Some? ==> r.1.value == Message(topic, data, 1, retain)
    ensures r.0 == Ok <==> hasClient && connected && accepted
    ensures r.0 == Ok || r.0 == InvalidState || r.0 == Fail
  {
    if !hasClient || !connected then (InvalidState, None)
    else if !accepted then (Fail, Some(Message(topic, data, 1, retain)))
    else (Ok, Some(Message(topic, data, 1, retain)))
  }

  /** `char status_topic[96]`. */
  const StatusTopicBufLen: nat := 96

  /**
   * `mqtt_publish_online_status`: a missing or empty base topic is
   * INVALID_ARG; "<base>/status" must fit the 96-byte buffer with its NUL
   * or the result is INVALID_SIZE; otherwise the retained payload "online"
   * is published to it.
   */
  function PublishOnlineStatus(baseTopic: Option<string>, hasClient: bool, connected: bool, accepted: bool): (r: (EspErr, Option<Message>))
    ensures baseTopic.None? || baseTopic.value == [] ==> r == (InvalidArg, None)
    ensures baseTopic.Some? && baseTopic.value != [] && |baseTopic.value| + 7 >= StatusTopicBufLen ==> r == (InvalidSize, None)
    ensures r.1.Some? ==> r.1.value == Message(baseTopic.value + "/status", "online", 1, true)
    ensures r.1.Some? ==> |r.1.value.topic| < StatusTopicBufLen
    ensures r.0 == Ok <==> baseTopic.Some? && 0 < |baseTopic.value| < StatusTopicBufLen - 7 && hasClient && connected && accepted
  {
    if baseTopic.None? || baseTopic.value == [] then (InvalidArg, None)
    else
      var topic := baseTopic.value + "/status";
      if |topic| >= StatusTopicBufLen then (InvalidSize, None)
      else Publish(hasClient, connected, accepted, topic, "online", true)
  }

  /** The longest base topic whose status topic still fits is 88 characters. */
  lemma LongestBaseTopic(base: string)
    requires |base| == 88
    ensures PublishOnlineStatus(Some(base), true, true, true) == (Ok, Some(Message(base + "/status", "online", 1, true)))
    ensures PublishOnlineStatus(Some(base + "x"), true, true, true) == (InvalidSize, None)
  {
  }

  // ------------------------------------------------------- main/mqtt_init.cpp

  /** The state of main/mqtt_init.cpp: client created, connected, stored broker settings. */
  datatype Client = Client(created: bool, connected: bool, cfg: MqttConfig.Config)

  /** What `esp_mqtt_client_init` is given: broker address and credentials, NULL when empty. */
  datatype ClientSettings = ClientSettings(uri: string, username: Option<string>, password: Option<string>)

  /** The outcomes of the ESP-IDF calls `mqtt_init` makes. */
  datatype InitCalls = InitCalls(eventGroupOk: bool, clientOk: bool, registerResult: EspErr, startResult: EspErr)

  /**
   * `mqtt_init`: a second call does nothing; an invalid URI is INVALID_ARG
   * before anything is stored; otherwise the settings are stored as
   * `network_mqtt_config_prepare` stores them and the client is created
   * with empty credentials passed as NULL. Gives the result, the new state
   * and the settings the client was created with.
   */
  function MqttInit(st: Client, uri: Option<string>, username: Option<string>, password: Option<string>,
                    calls: InitCalls): (r: (EspErr, Client, Option<ClientSettings>))
    ensures st.created ==> r == (Ok, st, None)
    ensures !st.created && !MqttConfig.IsValidUri(uri) ==> r == (InvalidArg, st, None)
    ensures !st.created && MqttConfig.IsValidUri(uri) ==>
      r.1.cfg == MqttConfig.Prepare(st.cfg, uri, username, password).1
    ensures r.2.Some? <==> r.1.created && !st.created
    ensures r.2.Some? ==>
      r.2.value == ClientSettings(r.1.cfg.uri, MqttConfig.UsernameOrNull(r.1.cfg), MqttConfig.PasswordOrNull(r.1.cfg))
    ensures r.0 == Ok && !st.created ==> r.1.created && MqttConfig.IsValidUri(Some(r.1.cfg.uri))
  {
    if st.created then (Ok, st, None)
    else
      var (ok, cfg) := MqttConfig.Prepare(st.cfg, uri, username, password);
      if !ok then (InvalidArg, st, None)
      else
        MqttConfig.StoredUriIsValid(st.cfg, uri, username, password);
        var stored := st.(cfg := cfg);
        if !calls.eventGroupOk then (NoMem, stored, None)
        else if !calls.clientOk then (Fail, stored, None)
        else
          var created := stored.(created := true);
          var settings := Some(ClientSettings(cfg.uri, MqttConfig.UsernameOrNull(cfg), MqttConfig.PasswordOrNull(cfg)));
          if calls.registerResult != Ok then (calls.registerResult, created, settings)
          else if calls.startResult != Ok then (calls.startResult, created, settings)
          else (Ok, created, settings)
  }

  /**
   * Credentials reach the client as given, cut to their buffers, and as
   * NULL when absent or empty.
   */
  lemma InitPassesCredentials(st: Client, uri: string, username: Option<string>, password: Option<string>, calls: InitCalls)
    requires !st.created && MqttConfig.IsValidUri(Some(uri)) && calls.eventGroupOk && calls.clientOk
    ensures var s := MqttInit(st, Some(uri), username, password, calls).2;
      s.Some?
      && (s.value.username.None? <==> username.None? || username.value == [])
      && (s.value.password.None? <==> password.None? || password.value == [])
      && (s.value.username.Some? ==> s.value.username.value == Truncate(username.value, MqttConfig.UserBufLen - 1))
      && (s.value.password.Some? ==> s.value.password.value == Truncate(password.value, MqttConfig.PassBufLen - 1))
  {
    MqttConfig.CredentialsPassedThrough(st.cfg, uri, username, password);
  }

  /**
   * `publish_network_event_from_mqtt`: Wi-Fi counts as up exactly when the
   * AP record can be read, whose signal is then reported (INT8_MIN
   * otherwise); the level is the station level with the current MQTT flag.
   */
  function NetworkEventFromMqtt(apRssi: Option<int>, ipAddr: Option<nat>, mqttConnected: bool, timestampUs: int): (r: NetworkLevel.AppNetworkEvent)
    ensures r.level == NetworkLevel.StationLevel(apRssi.Some?, ipAddr.Some? && ipAddr.value != 0, mqttConnected)
    ensures r.lastRssi == (if apRssi.Some? then apRssi.value else -128)
    ensures r.ipAddr == (if ipAddr.Some? then ipAddr.value else 0)
    ensures mqttConnected ==> r.level == NetworkLevel.MqttReady
  {
    var ipReady := ipAddr.Some? && ipAddr.value != 0;
    NetworkLevel.StateMachineEvent(apRssi.Some?, ipReady, mqttConnected,
                                   if apRssi.Some? then apRssi.value else -128,
                                   if ipReady then ipAddr.value else 0, timestampUs)
  }
}
